/** The decoder: a stream that remembers the kind of the value ahead and the lists it is in
    (rlp/decode.go). The stream reads a byte slice, so its input limit is the slice's end. */
module RlpDecode {
  import opened Common
  import opened RlpSpec
  import opened RlpEncode

  datatype ListPos = ListPos(pos: nat, size: nat)

  function Advance(stack: seq<ListPos>, n: nat): seq<ListPos> {
    if stack == [] then [] else
      var top := stack[|stack|-1];
      stack[..|stack|-1] + [ListPos(top.pos + n, top.size)]
  }

  /** The list fits into what is left of the one around it, the outermost into the input. */
  ghost predicate Fits(stack: seq<ListPos>, ends: seq<nat>, end: nat, i: nat)
    requires i < |stack| == |ends|
  {
    && stack[i].pos <= stack[i].size && ends[i] <= end
    && (i > 0 ==> ends[i-1] == ends[i] + stack[i-1].size - stack[i-1].pos - stack[i].size && ends[i] <= ends[i-1])
  }

  /** `ends` are the ends of the open lists for a reader at `pos`. */
  ghost predicate Nested(stack: seq<ListPos>, ends: seq<nat>, pos: nat, end: nat) {
    && |ends| == |stack|
    && (stack != [] ==> ends[|stack|-1] == pos + stack[|stack|-1].size - stack[|stack|-1].pos)
    && (forall i: nat {:trigger Fits(stack, ends, end, i)} :: i < |stack| ==> Fits(stack, ends, end, i))
  }

  lemma AdvanceNested(stack: seq<ListPos>, ends: seq<nat>, pos: nat, end: nat, n: nat)
    requires Nested(stack, ends, pos, end) && pos + n <= (if stack == [] then end else ends[|stack|-1])
    ensures Nested(Advance(stack, n), ends, pos + n, end)
  {
    forall i: nat | i < |stack| ensures Fits(Advance(stack, n), ends, end, i) {
      assert Fits(stack, ends, end, i);
    }
  }

  /** The reader went from `from` to `to` inside the innermost list. */
  ghost predicate Moved(before: seq<ListPos>, from: nat, after: seq<ListPos>, to: nat) {
    from <= to && after == Advance(before, to - from)
  }

  lemma MovedTwice(a: seq<ListPos>, i: nat, b: seq<ListPos>, j: nat, c: seq<ListPos>, k: nat)
    requires Moved(a, i, b, j) && Moved(b, j, c, k)
    ensures Moved(a, i, c, k)
  {
  }

  lemma Stepped(stack: seq<ListPos>, pos: nat)
    ensures Moved(stack, pos, stack, pos) && Moved(stack, pos, Advance(stack, 1), pos + 1)
  {
  }

  lemma SameDepth(a: seq<ListPos>, i: nat, b: seq<ListPos>, j: nat)
    requires Moved(a, i, b, j)
    ensures |a| == |b|
  {
  }

  lemma FirstOf(s: seq<Byte>, from: nat, to: nat)
    requires from <= to <= |s|
    ensures from < to ==> s[from..to][0] == s[from] && s[from..to][1..] == s[from + 1..to]
  {
  }

  lemma FrontOf(s: seq<Byte>, from: nat, to: nat, n: nat)
    requires from <= to <= |s| && from + n <= to
    ensures s[from..to][..n] == s[from..from + n]
  {
  }

  /** A list read to its end, seen from the list around it. */
  lemma InList(outer: seq<ListPos>, inner: seq<ListPos>, last: seq<ListPos>, from: nat, to: nat)
    requires from <= to && inner == outer + [ListPos(0, to - from)] && Moved(inner, from, last, to)
    ensures |last| == |inner| && last[|last|-1] == ListPos(to - from, to - from) && last[..|last|-1] == outer
  {
  }

  lemma NoTag(b: seq<Byte>)
    ensures TagOf(b).None? ==> HeadOf(b).None?
    ensures TagOf(b).Some? ==> if TagOf(b).value.kind.Byte? then TagOf(b).value.tag == 0 && TagOf(b).value.size == 1 else TagOf(b).value.tag >= 1
  {
  }

  lemma FitsOrNot(b: seq<Byte>, h: Head)
    requires TagOf(b) == Some(h)
    ensures if h.tag + h.size <= |b| then HeadOf(b) == Some(h) else HeadOf(b).None?
  {
  }

  class Stream {
    const input: seq<Byte>
    var pos: nat
    var remaining: nat
    var kind: Option<Kind>
    var size: nat
    var byteval: Byte
    var kinderr: Option<Error>
    var stack: seq<ListPos>
    ghost var ends: seq<nat>
    ghost var start: nat

    /** The end of the innermost list, or of the input. */
    ghost function Bound(): nat
      reads this
    {
      if stack == [] || ends == [] then |input| else ends[|ends|-1]
    }

    /** What is left, from the start of the value ahead. */
    ghost function Ahead(): seq<Byte>
      reads this
    {
      if From() <= Bound() <= |input| then input[From()..Bound()] else []
    }

    ghost function From(): nat
      reads this
    {
      if kind.None? then pos else start
    }

    ghost predicate Valid()
      reads this
    {
      && pos <= Bound() <= |input| && remaining == |input| - pos && Nested(stack, ends, pos, |input|)
      && (kind.Some? ==> kinderr.None? && start < pos && CachedIs(HeadOf(Ahead())))
    }

    /** The cached kind and size are those of the value ahead, whose tag has been read. */
    ghost predicate CachedIs(head: Option<Head>)
      reads this
    {
      && head.Some? && kind == Some(head.value.kind) && start <= pos
      && (if kind.value.Byte? then pos == start + 1 && size == 0 && start < |input| && byteval == input[start]
          else pos == start + head.value.tag && size == head.value.size)
    }

    constructor (input: seq<Byte>)
      ensures Valid() && this.input == input && pos == 0 && kind.None? && stack == [] && fresh(this)
    {
      this.input := input;
      pos, remaining, kind, size, byteval, kinderr, stack, ends, start := 0, |input|, None, 0, 0, None, [], [], 0;
    }

    // ---- reading bytes ---------------------------------------------------------------

    method WillRead(n: nat) returns (err: Option<Error>)
      requires Valid()
      modifies this`kind, this`stack, this`remaining
      ensures err.None? <==> n <= old(Bound()) - pos
      ensures err != Some(EOL)
      ensures err.None? ==> stack == Advance(old(stack), n) && remaining == old(remaining) - n && kind.None?
    {
      kind := None;
      if |stack| > 0 {
        var tos := stack[|stack|-1];
        assert Fits(stack, ends, |input|, |stack| - 1);
        if n > tos.size - tos.pos {
          return Some(ElemTooLarge);
        }
        stack := stack[..|stack|-1] + [ListPos(tos.pos + n, tos.size)];
      }
      if n > remaining {
        return Some(ValueTooLarge);
      }
      remaining := remaining - n;
      err := None;
    }

    /** The next `n` bytes, if the innermost list or the input has as many. */
    method ReadFull(n: nat) returns (r: Result<seq<Byte>>)
      requires Valid()
      modifies this`kind, this`stack, this`remaining, this`pos
      ensures r.Ok? <==> n <= old(Bound() - pos)
      ensures r.Err? ==> r.error != EOL
      ensures r.Ok? ==> Valid() && pos == old(pos) + n && r.value == input[old(pos)..pos]
      ensures r.Ok? ==> kind.None? && stack == Advance(old(stack), n) && Bound() == old(Bound())
    {
      ghost var before := stack;
      var err := WillRead(n);
      if err.Some? {
        return Err(err.value);
      }
      AdvanceNested(before, ends, pos, |input|, n);
      r := Ok(input[pos..pos + n]);
      pos := pos + n;
    }

    /** A number of `n` bytes, zero for none; more than one byte must not start with zero. */
    method ReadUint(n: nat) returns (r: Result<nat>)
      requires Valid() && n <= 8
      modifies this`kind, this`stack, this`remaining, this`pos
      ensures r.Ok? <==> n <= old(Bound() - pos) && (n <= 1 || input[old(pos)] != 0)
      ensures r.Ok? ==> Valid() && pos == old(pos) + n && r.value == FromBigEndian(input[old(pos)..pos])
      ensures r.Ok? ==> kind.None? && stack == Advance(old(stack), n) && Bound() == old(Bound())
      ensures r.Err? ==> r.error != EOL && (n <= old(Bound() - pos) ==> r.error == CanonSize)
    {
      if n == 0 {
        kind := None;
        return Ok(0);
      }
      var bytes := ReadFull(n);
      if bytes.Err? {
        return Err(bytes.error);
      }
      if n > 1 && bytes.value[0] == 0 {
        return Err(CanonSize);
      }
      r := Ok(FromBigEndian(bytes.value));
    }

    /** The size behind a long tag: at least 56. */
    method ReadSize(k: Kind, n: nat) returns (r: Result<Head>)
      requires Valid() && kind.None? && 1 <= n <= 8
      modifies this`kind, this`stack, this`remaining, this`pos
      ensures r.Ok? <==> SizeOf(old(Ahead()), n).Some?
      ensures r.Ok? ==> Valid() && kind.None? && r.value == Head(k, n + 1, SizeOf(old(Ahead()), n).value) && Bound() == old(Bound())
      ensures r.Ok? ==> pos == old(pos) + n && stack == Advance(old(stack), n)
      ensures r.Err? ==> r.error != EOL
    {
      ghost var ahead := Ahead();
      var v := ReadUint(n);
      if v.Err? {
        return Err(v.error);
      }
      assert ahead[..n] == input[old(pos)..pos];
      if n == 1 {
        assert ahead[..1] == [ahead[0]];
        assert FromBigEndian([ahead[0]]) == FromBigEndian([]) * 256 + ahead[0];
      }
      if v.value < 56 {
        return Err(CanonSize);
      }
      r := Ok(Head(k, n + 1, v.value));
    }

    /** The rest of a tag that starts with `t`. */
    method ReadTag(t: Byte) returns (r: Result<Head>)
      requires Valid() && kind.None?
      modifies this`kind, this`stack, this`remaining, this`pos, this`byteval
      ensures r.Ok? <==> TagFrom(t, old(Ahead())).Some?
      ensures r.Ok? ==> Valid() && kind.None? && TagFrom(t, old(Ahead())) == Some(r.value) && Bound() == old(Bound())
      ensures r.Ok? ==> pos == old(pos) + (if r.value.kind.Byte? then 0 else r.value.tag - 1) && Moved(old(stack), old(pos), stack, pos)
      ensures r.Ok? && r.value.kind.Byte? ==> byteval == t
      ensures r.Err? ==> r.error != EOL
    {
      byteval := 0;
      assert stack == Advance(stack, 0);
      if t < 0x80 {
        byteval := t;
        r := Ok(Head(Kind.Byte, 0, 1));
      } else if t < 0xB8 {
        r := Ok(Head(String, 1, t - 0x80));
      } else if t < 0xC0 {
        r := ReadSize(String, t - 0xB7);
      } else if t < 0xF8 {
        r := Ok(Head(Kind.List, 1, t - 0xC0));
      } else {
        r := ReadSize(Kind.List, t - 0xF7);
      }
    }

    /** Reads the tag of the next value. */
    method ReadKind() returns (r: Result<Head>)
      requires Valid() && kind.None?
      modifies this`kind, this`stack, this`remaining, this`pos, this`byteval
      ensures r.Ok? <==> TagOf(old(Ahead())).Some?
      ensures r.Ok? ==> Valid() && kind.None? && TagOf(old(Ahead())) == Some(r.value) && Bound() == old(Bound())
      ensures r.Ok? ==> pos == old(pos) + (if r.value.kind.Byte? then 1 else r.value.tag) && Moved(old(stack), old(pos), stack, pos)
      ensures r.Ok? && r.value.kind.Byte? ==> byteval == input[old(pos)]
      ensures r.Err? ==> r.error != EOL
    {
      hide Nested, Fits, HeadOf, TagFrom, CachedIs, Advance;
      ghost var ahead := Ahead();
      FirstOf(input, pos, Bound());
      Stepped(stack, pos);
      ghost var s1, p1 := Advance(stack, 1), pos + 1;
      var first := ReadFull(1);
      if first.Err? {
        return Err(if stack == [] && (first.error == UnexpectedEOF || first.error == ValueTooLarge) then EOF else first.error);
      }
      assert ahead[0] == first.value[0] && ahead[1..] == Ahead();
      r := ReadTag(first.value[0]);
      if r.Ok? {
        MovedTwice(old(stack), old(pos), s1, p1, stack, pos);
      }
    }

    /** Reads the tag of the next value and checks that its content fits. */
    method ReadAhead() returns (err: Option<Error>)
      requires Valid() && kind.None?
      modifies this`kind, this`stack, this`remaining, this`pos, this`byteval, this`size, this`kinderr, this`start
      ensures err.None? <==> HeadOf(old(Ahead())).Some?
      ensures err.None? ==> kinderr.None? && CachedIs(HeadOf(old(Ahead()))) && start == old(pos) < pos <= Bound() == old(Bound())
      ensures err.None? ==> remaining == |input| - pos && Nested(stack, ends, pos, |input|) && Moved(old(stack), old(pos), stack, pos)
      ensures err != Some(EOL)
    {
      hide HeadOf, TagOf, Fits, Advance, Moved;
      var from := pos;
      ghost var ahead := Ahead();
      NoTag(ahead);
      var head := ReadKind();
      if head.Err? {
        kind, size, kinderr := Some(Kind.Byte), 0, Some(head.error);
        return Some(head.error);
      }
      kind, size, kinderr := Some(head.value.kind), if head.value.kind.Byte? then 0 else head.value.size, None;
      start := from;
      FitsOrNot(ahead, head.value);
      if |stack| == 0 {
        if size > remaining {
          kinderr := Some(ValueTooLarge);
        }
      } else if size > stack[|stack|-1].size - stack[|stack|-1].pos {
        kinderr := Some(ElemTooLarge);
      }
      err := kinderr;
    }

    /** Kind and content size of the value ahead; a single byte has size zero. Until the value is
        read, further calls give the same answer. */
    method PeekKind() returns (r: Result<(Kind, nat)>)
      requires Valid()
      modifies this`kind, this`stack, this`remaining, this`pos, this`byteval, this`size, this`kinderr, this`start
      ensures r.Ok? <==> HeadOf(old(Ahead())).Some?
      ensures r.Ok? ==> Valid() && kind == Some(r.value.0) && size == r.value.1 && Ahead() == old(Ahead()) && Bound() == old(Bound())
      ensures r.Ok? ==> Moved(old(stack), old(pos), stack, pos) && start == old(From())
      ensures r.Err? && r.error == EOL <==> old(stack) != [] && old(Ahead()) == []
      ensures r.Err? && r.error == EOL ==> Valid() && kind.None? && pos == old(pos) && stack == old(stack)
    {
      if kind.None? {
        if |stack| > 0 && stack[|stack|-1].pos == stack[|stack|-1].size {
          return Err(EOL);
        }
        var err := ReadAhead();
        if err.Some? {
          return Err(err.value);
        }
      } else {
        assert stack == Advance(stack, 0);
      }
      r := Ok((kind.value, size));
    }

    // ---- reading values --------------------------------------------------------------

    /** The content of the value ahead, whose tag has been read. */
    method TakeContent() returns (b: seq<Byte>)
      requires Valid() && kind.Some?
      modifies this`kind, this`stack, this`remaining, this`pos
      ensures
        var h := HeadOf(old(Ahead())).value;
        b == old(Ahead())[h.tag..h.tag + h.size] && pos == old(start) + h.tag + h.size
      ensures Valid() && kind.None? && Moved(old(stack), old(pos), stack, pos) && Bound() == old(Bound())
    {
      ghost var h := HeadOf(Ahead()).value;
      InSlice(input, start, Bound(), start + h.tag, start + h.tag + h.size);
      if kind.value.Byte? {
        assert stack == Advance(stack, 0);
        kind := None;
        b := [byteval];
        assert b == input[start..start + 1];
      } else {
        var content := ReadFull(size);
        b := content.value;
      }
    }

    /** A string. */
    method Bytes() returns (r: Result<seq<Byte>>)
      requires Valid()
      modifies this`kind, this`stack, this`remaining, this`pos, this`byteval, this`size, this`kinderr, this`start
      ensures r.Ok? <==> StringAt(old(Ahead())).Some?
      ensures r.Ok? ==> Valid() && kind.None? && StringAt(old(Ahead())) == Some((r.value, pos - old(From())))
      ensures r.Ok? ==> Moved(old(stack), old(pos), stack, pos) && Bound() == old(Bound())
      ensures r.Err? && r.error == EOL <==> old(stack) != [] && old(Ahead()) == []
    {
      hide HeadOf, StringAt, Parse, Nested, Advance, Fits;
      StringByHead(Ahead());
      var k := PeekKind();
      if k.Err? {
        r := Err(k.error);
      } else if k.value.0.List? {
        r := Err(ExpectedString);
      } else {
        ghost var s1, p1, ahead := stack, pos, Ahead();
        var b := TakeContent();
        StringFrom(ahead, HeadOf(ahead).value, b);
        MovedTwice(old(stack), old(pos), s1, p1, stack, pos);
        r := if k.value.0.String? && k.value.1 == 1 && b[0] < 128 then Err(CanonSize) else Ok(b);
      }
    }

    /** The value ahead is a list, whose tag has been read: what is ahead is then its content. */
    method EnterList()
      requires Valid() && kind == Some(Kind.List)
      modifies this`stack, this`ends, this`kind, this`size
      ensures Valid() && kind.None? && Ahead() == input[pos..pos + old(size)]
      ensures stack == old(stack) + [ListPos(0, old(size))] && ends == old(ends) + [pos + old(size)]
    {
      hide Fits, Advance;
      assert pos + size <= Bound() && |Ahead()| == Bound() - start;
      PushNested(stack, ends, pos, |input|, size);
      stack := stack + [ListPos(0, size)];
      ends := ends + [pos + size];
      kind, size := None, 0;
    }

    /** Enters a list. */
    method OpenList() returns (r: Result<nat>)
      requires Valid()
      modifies this`kind, this`stack, this`ends, this`remaining, this`pos, this`byteval, this`size, this`kinderr, this`start
      ensures r.Ok? <==> HeadOf(old(Ahead())).Some? && HeadOf(old(Ahead())).value.kind.List?
      ensures r.Ok? ==>
        var h := HeadOf(old(Ahead())).value;
        && Valid() && kind.None? && r.value == h.size && Bound() == pos + h.size
        && pos == old(From()) + h.tag && pos >= old(pos)
        && stack != [] && stack[|stack|-1] == ListPos(0, h.size) && Moved(old(stack), old(pos), stack[..|stack|-1], pos)
        && ends == old(ends) + [pos + h.size]
      ensures r.Err? && r.error == EOL <==> old(stack) != [] && old(Ahead()) == []
    {
      hide HeadOf, Nested, Fits;
      var k := PeekKind();
      if k.Err? {
        r := Err(k.error);
      } else if !k.value.0.List? {
        r := Err(ExpectedList);
      } else {
        EnterList();
        r := Ok(k.value.1);
      }
    }

    /** Leaves a list that has been read to its end. A tag read ahead is dropped. */
    method ListEnd() returns (err: Option<Error>)
      requires Valid()
      modifies this`stack, this`ends, this`kind, this`size
      ensures err == if old(stack) == [] then Some(NotInList)
                     else if old(stack)[|old(stack)|-1].pos != old(stack)[|old(stack)|-1].size then Some(NotAtEOL) else None
      ensures err.None? ==>
        var top := |old(stack)| - 1;
        Valid() && kind.None? && stack == Advance(old(stack)[..top], old(stack)[top].size) && ends == old(ends)[..top]
      ensures err.Some? ==> unchanged(this)
    {
      if |stack| == 0 {
        return Some(NotInList);
      }
      var tos := stack[|stack|-1];
      if tos.pos != tos.size {
        return Some(NotAtEOL);
      }
      PopNested(stack, ends, pos, |input|);
      stack := stack[..|stack|-1];
      ends := ends[..|ends|-1];
      if |stack| > 0 {
        stack := stack[..|stack|-1] + [ListPos(stack[|stack|-1].pos + tos.size, stack[|stack|-1].size)];
      }
      kind, size := None, 0;
      err := None;
    }

    /** The value ahead as it stands in the input, tag and all. The tag has been read and is
        written anew. */
    method Raw() returns (r: Result<seq<Byte>>)
      requires Valid() && |input| < U64
      modifies this`kind, this`stack, this`remaining, this`pos, this`byteval, this`size, this`kinderr, this`start
      ensures r.Ok? <==> HeadOf(old(Ahead())).Some?
      ensures r.Ok? ==> Valid() && kind.None? && old(From()) < pos && r.value == input[old(From())..pos]
      ensures r.Ok? ==> pos == old(From()) + HeadOf(old(Ahead())).value.tag + HeadOf(old(Ahead())).value.size && ends == old(ends)
      ensures r.Ok? ==> Moved(old(stack), old(pos), stack, pos) && Bound() == old(Bound())
    {
      hide HeadOf, Nested, Advance, Fits, Framed;
      var k := PeekKind();
      if k.Err? {
        r := Err(k.error);
      } else {
        ghost var s1, p1, ahead := stack, pos, Ahead();
        ghost var h := HeadOf(ahead).value;
        WholeValue(input, start, Bound(), h);
        var content := TakeContent();
        MovedTwice(old(stack), old(pos), s1, p1, stack, pos);
        var all := WithHead(k.value.0, content);
        r := Ok(all);
      }
    }

    /** An unsigned integer of at most `maxBytes` bytes. */
    method Uint(maxBytes: nat) returns (r: Result<nat>)
      requires Valid() && 1 <= maxBytes <= 8
      modifies this`kind, this`stack, this`remaining, this`pos, this`byteval, this`size, this`kinderr, this`start
      ensures r.Ok? <==> IntAt(old(Ahead()), maxBytes).Some?
      ensures r.Ok? ==> Valid() && kind.None? && IntAt(old(Ahead()), maxBytes) == Some((r.value, pos - old(From())))
      ensures r.Ok? ==> Moved(old(stack), old(pos), stack, pos) && Bound() == old(Bound())
    {
      hide HeadOf, IntAt, IntFrom;
      NoInt(Ahead(), maxBytes);
      var k := PeekKind();
      if k.Err? {
        r := Err(k.error);
      } else if k.value.0.List? {
        r := Err(ExpectedString);
      } else {
        ghost var ahead := Ahead();
        IntByHead(ahead, HeadOf(ahead).value, maxBytes);
        if k.value.0.Byte? && byteval == 0 {
          r := Err(CanonInt);
        } else if k.value.0.String? && size > maxBytes {
          r := Err(UintOverflow);
        } else {
          ghost var s1, p1 := stack, pos;
          var s := TakeContent();
          MovedTwice(old(stack), old(pos), s1, p1, stack, pos);
          r := IntFrom(k.value.0, s);
        }
      }
    }

    // ---- decoding into an interface value --------------------------------------------

    /** The item at the start of what is ahead. */
    method DecodeInterface() returns (r: Result<Item>)
      requires Valid() && kind.None?
      modifies this`kind, this`stack, this`ends, this`remaining, this`pos, this`byteval, this`size, this`kinderr, this`start
      ensures r.Ok? ==> Parse(old(Ahead())) == Some((r.value, pos - old(pos)))
      ensures r.Ok? ==> Valid() && kind.None? && Moved(old(stack), old(pos), stack, pos) && ends == old(ends) && pos > old(pos)
      ensures r.Err? && r.error == EOL <==> old(stack) != [] && old(Ahead()) == []
      ensures r.Err? && r.error == EOL ==> Valid() && kind.None? && pos == old(pos) && stack == old(stack) && ends == old(ends)
      ensures r.Err? && r.error != EOL ==> Parse(old(Ahead())).None?
      decreases |input| - pos, 0
    {
      hide HeadOf, StringAt, Parse, ParseAll, Nested;
      ghost var ahead, from := Ahead(), pos;
      ParseByHead(ahead);
      StringByHead(ahead);
      var k := PeekKind();
      if k.Err? {
        return Err(k.error);
      }
      ghost var s1, p1, h := stack, pos, HeadOf(ahead).value;
      if k.value.0.List? {
        InSlice(input, from, Bound(), pos, pos + size);
        var items := DecodeListSlice();
        if items.Err? {
          return Err(items.error);
        }
        MovedTwice(old(stack), old(pos), s1, p1, stack, pos);
        r := Ok(Item.List(items.value));
      } else {
        var b := Bytes();
        if b.Err? {
          return Err(b.error);
        }
        MovedTwice(old(stack), old(pos), s1, p1, stack, pos);
        r := Ok(Str(b.value));
      }
    }

    /** The items of the list ahead, whose tag has been read. */
    method DecodeListSlice() returns (r: Result<seq<Item>>)
      requires Valid() && kind == Some(Kind.List) && pos + size <= |input|
      modifies this`kind, this`stack, this`ends, this`remaining, this`pos, this`byteval, this`size, this`kinderr, this`start
      ensures r.Ok? ==> ParseAll(input[old(pos)..old(pos + size)]) == Some(r.value) && pos == old(pos + size)
      ensures r.Ok? ==> Valid() && kind.None? && Moved(old(stack), old(pos), stack, pos) && ends == old(ends)
      ensures r.Err? ==> r.error != EOL && ParseAll(input[old(pos)..old(pos + size)]).None?
      decreases |input| - pos, 3
    {
      hide HeadOf, ParseAll, Advance, Valid;
      ghost var from, outer, outerEnds := pos, stack, ends;
      var length := OpenKnown();
      ghost var inner := stack;
      r := DecodeItems(length);
      if r.Ok? {
        LeaveList(outer, inner, outerEnds, from);
      }
    }

    /** Enters a list whose tag has been read. */
    method OpenKnown() returns (length: nat)
      requires Valid() && kind == Some(Kind.List)
      modifies this`kind, this`stack, this`ends, this`remaining, this`pos, this`byteval, this`size, this`kinderr, this`start
      ensures Valid() && kind.None? && pos == old(pos) && length == old(size) && Bound() == pos + length && |old(ends)| == |old(stack)|
      ensures stack == old(stack) + [ListPos(0, length)] && ends == old(ends) + [pos + length]
    {
      hide HeadOf;
      var r := OpenList();
      length := r.value;
      assert stack == stack[..|stack|-1] + [ListPos(0, length)];
      assert stack[..|stack|-1] == Advance(old(stack), 0) == old(stack);
    }

    /** The items of the list just entered; an empty one needs no reading. */
    method DecodeItems(length: nat) returns (r: Result<seq<Item>>)
      requires Valid() && kind.None? && stack != [] && length == Bound() - pos
      modifies this`kind, this`stack, this`ends, this`remaining, this`pos, this`byteval, this`size, this`kinderr, this`start
      ensures r.Ok? ==> ParseAll(old(Ahead())) == Some(r.value) && pos == old(Bound())
      ensures r.Ok? ==> Valid() && kind.None? && Moved(old(stack), old(pos), stack, pos) && ends == old(ends)
      ensures r.Err? ==> r.error != EOL && ParseAll(old(Ahead())).None?
      decreases |input| - pos, 2
    {
      hide HeadOf, ParseAll, Nested;
      if length == 0 {
        ParseNothing();
        assert Ahead() == [];
        assert Moved(stack, pos, stack, pos);
        r := Ok([]);
      } else {
        r := DecodeSliceElems();
      }
    }

    /** The list that was opened at `from` has been read to its end. */
    method LeaveList(ghost outer: seq<ListPos>, ghost inner: seq<ListPos>, ghost outerEnds: seq<nat>, ghost from: nat)
      requires Valid() && kind.None? && from <= pos && inner == outer + [ListPos(0, pos - from)] && Moved(inner, from, stack, pos)
      requires |outerEnds| == |outer| && ends == outerEnds + [pos]
      modifies this`stack, this`ends, this`kind, this`size
      ensures Valid() && kind.None? && Moved(outer, from, stack, pos) && ends == outerEnds
    {
      InList(outer, inner, stack, from, pos);
      var err := ListEnd();
    }

    /** The items up to the end of the innermost list. */
    method DecodeSliceElems() returns (r: Result<seq<Item>>)
      requires Valid() && kind.None? && stack != []
      modifies this`kind, this`stack, this`ends, this`remaining, this`pos, this`byteval, this`size, this`kinderr, this`start
      ensures r.Ok? ==> ParseAll(old(Ahead())) == Some(r.value) && pos == old(Bound())
      ensures r.Ok? ==> Valid() && kind.None? && Moved(old(stack), old(pos), stack, pos) && ends == old(ends)
      ensures r.Err? ==> r.error != EOL && ParseAll(old(Ahead())).None?
      decreases |input| - pos, 1
    {
      hide HeadOf, Parse, ParseAll, Nested, Fits, Advance, CachedIs;
      Stepped(stack, pos);
      var items := [];
      ghost var bound := Bound();
      ParseStart(Ahead());
      while true
        invariant Valid() && kind.None? && stack != [] && ends == old(ends) && Bound() == bound
        invariant Moved(old(stack), old(pos), stack, pos)
        invariant ParseAll(old(Ahead())) == Behind(items, ParseAll(Ahead()))
        decreases |input| - pos
      {
        ghost var s1, p1, ahead := stack, pos, Ahead();
        ParseNext(items, ahead);
        var item := DecodeInterface();
        if item.Err? {
          if item.error == EOL {
            break;
          }
          return Err(item.error);
        }
        MovedTwice(old(stack), old(pos), s1, p1, stack, pos);
        SameDepth(s1, p1, stack, pos);
        InSlice(input, p1, bound, pos, bound);
        items := items + [item.value];
      }
      r := Ok(items);
    }
  }

  lemma InSlice(s: seq<Byte>, start: nat, end: nat, from: nat, to: nat)
    requires start <= from <= to <= end <= |s|
    ensures s[start..end][from - start..to - start] == s[from..to]
  {
    var t := s[start..end][from - start..to - start];
    assert forall i {:trigger t[i]} :: 0 <= i < to - from ==> t[i] == s[from + i];
  }

  /** The string at the start of `b`, and the bytes it takes. */
  function StringAt(b: seq<Byte>): Option<(seq<Byte>, nat)> {
    var head := HeadOf(b);
    if head.None? || head.value.kind.List? then None else
      var h := head.value;
      var content := b[h.tag..h.tag + h.size];
      if h.kind.String? && h.size == 1 && content[0] < 128 then None else Some((content, h.tag + h.size))
  }

  /** The integer at the start of `b`: a string without leading zeros. */
  function IntAt(b: seq<Byte>, maxBytes: nat): Option<(nat, nat)> {
    var s := StringAt(b);
    if s.None? || |s.value.0| > maxBytes || (s.value.0 != [] && s.value.0[0] == 0) then None
    else Some((FromBigEndian(s.value.0), s.value.1))
  }

  lemma SmallInts(s: seq<Byte>)
    ensures |s| == 1 ==> FromBigEndian(s) == s[0]
    ensures |s| > 1 && s[0] != 0 ==> FromBigEndian(s) >= 256
  {
    if |s| == 1 {
      assert s[..0] == [];
    } else if |s| > 1 && s[0] != 0 {
      BigEndianOf(s[..|s|-1]);
    }
  }

  /** The checks on the bytes of an integer. */
  function IntFrom(kind: Kind, s: seq<Byte>): Result<nat> {
    if |s| > 1 && s[0] == 0 then Err(CanonInt)
    else if kind.String? && |s| > 0 && FromBigEndian(s) < 128 then Err(CanonSize)
    else Ok(FromBigEndian(s))
  }

  lemma NoInt(b: seq<Byte>, maxBytes: nat)
    ensures HeadOf(b).None? || HeadOf(b).value.kind.List? ==> IntAt(b, maxBytes).None?
  {
  }

  lemma IntByHead(b: seq<Byte>, h: Head, maxBytes: nat)
    requires HeadOf(b) == Some(h) && !h.kind.List? && maxBytes >= 1
    ensures
      var s := b[h.tag..h.tag + h.size];
      IntAt(b, maxBytes) ==
        if (h.kind.Byte? && b[0] == 0) || (h.kind.String? && h.size > maxBytes) || IntFrom(h.kind, s).Err? then None
        else Some((IntFrom(h.kind, s).value, h.tag + h.size))
  {
    var s := b[h.tag..h.tag + h.size];
    StringFrom(b, h, s);
    SmallInts(s);
  }

  /** Content behind the header it needs; a single byte needs none. */
  ghost function Framed(kind: Kind, content: seq<Byte>): seq<Byte> {
    (if kind.Byte? then [] else Header(if kind.String? then 0x80 else 0xC0, |content|)) + content
  }

  lemma WholeValue(s: seq<Byte>, from: nat, to: nat, h: Head)
    requires from <= to <= |s| && HeadOf(s[from..to]) == Some(h)
    ensures from + h.tag + h.size <= to && Framed(h.kind, s[from..to][h.tag..h.tag + h.size]) == s[from..from + h.tag + h.size]
  {
    var b := s[from..to];
    var content := b[h.tag..h.tag + h.size];
    FrontOf(s, from, to, h.tag + h.size);
    if !h.kind.Byte? {
      HeaderOfHead(b, h);
    }
    assert b[..h.tag + h.size] == b[..h.tag] + content;
  }

  /** A header and the content behind it, in a buffer of their own. */
  method WithHead(kind: Kind, content: seq<Byte>) returns (r: seq<Byte>)
    requires |content| < U64
    ensures r == Framed(kind, content)
  {
    if kind.Byte? {
      return content;
    }
    var n := HeadSize(|content|);
    var buf := new Byte[n + |content|];
    Copy(buf, n, content);
    assert buf[n..] == content;
    var m: nat;
    if kind.String? {
      m := PutHead(buf, 0, 0x80, 0xB7, |content|);
    } else {
      m := PutHead(buf, 0, 0xC0, 0xF7, |content|);
    }
    r := buf[..];
  }

  lemma StringByHead(b: seq<Byte>)
    ensures HeadOf(b).None? || HeadOf(b).value.kind.List? ==> StringAt(b).None?
    ensures HeadOf(b).None? ==> Parse(b).None?
  {
  }

  lemma ParseNothing()
    ensures ParseAll([]) == Some([])
  {
  }

  /** The items read so far with those still to come. */
  ghost function Behind(items: seq<Item>, rest: Option<seq<Item>>): Option<seq<Item>> {
    if rest.None? then None else Some(items + rest.value)
  }

  lemma ParseStart(b: seq<Byte>)
    ensures ParseAll(b) == Behind([], ParseAll(b))
  {
    if ParseAll(b).Some? {
      assert [] + ParseAll(b).value == ParseAll(b).value;
    }
  }

  /** One more item. */
  lemma ParseNext(items: seq<Item>, b: seq<Byte>)
    ensures b == [] ==> Behind(items, ParseAll(b)) == Some(items)
    ensures b != [] && Parse(b).None? ==> ParseAll(b).None?
    ensures b != [] && Parse(b).Some? ==>
      Behind(items, ParseAll(b)) == Behind(items + [Parse(b).value.0], ParseAll(b[Parse(b).value.1..]))
  {
    if b == [] {
      assert items + [] == items;
    } else if Parse(b).Some? && ParseAll(b[Parse(b).value.1..]).Some? {
      Regroup(items, [Parse(b).value.0], ParseAll(b[Parse(b).value.1..]).value);
    }
  }

  lemma StringFrom(b: seq<Byte>, h: Head, content: seq<Byte>)
    requires HeadOf(b) == Some(h) && !h.kind.List? && content == b[h.tag..h.tag + h.size]
    ensures StringAt(b) == if h.kind.String? && h.size == 1 && content[0] < 128 then None else Some((content, h.tag + h.size))
  {
  }

  /** A value is a string or a list. */
  lemma ParseByHead(b: seq<Byte>)
    ensures Parse(b) ==
      var head := HeadOf(b);
      if head.Some? && head.value.kind.List?
      then ListOf(ParseAll(b[head.value.tag..head.value.tag + head.value.size]), head.value.tag + head.value.size)
      else if StringAt(b).Some? then Some((Str(StringAt(b).value.0), StringAt(b).value.1)) else None
  {
  }

  function ListOf(items: Option<seq<Item>>, n: nat): Option<(Item, nat)> {
    if items.None? then None else Some((Item.List(items.value), n))
  }

  lemma PushNested(stack: seq<ListPos>, ends: seq<nat>, pos: nat, end: nat, size: nat)
    requires Nested(stack, ends, pos, end) && pos + size <= (if stack == [] then end else ends[|stack|-1])
    ensures Nested(stack + [ListPos(0, size)], ends + [pos + size], pos, end)
  {
    var s, e := stack + [ListPos(0, size)], ends + [pos + size];
    forall i: nat | i < |s| ensures Fits(s, e, end, i) {
      assert i < |stack| ==> Fits(stack, ends, end, i);
      assert i == |stack| > 0 ==> Fits(stack, ends, end, i - 1);
    }
  }

  lemma PopNested(stack: seq<ListPos>, ends: seq<nat>, pos: nat, end: nat)
    requires Nested(stack, ends, pos, end) && stack != [] && stack[|stack|-1].pos == stack[|stack|-1].size
    ensures
      var top := |stack| - 1;
      Nested(Advance(stack[..top], stack[top].size), ends[..top], pos, end) && pos <= (if top == 0 then end else ends[top-1]) <= end
  {
    var top := |stack| - 1;
    assert Fits(stack, ends, end, top);
    assert top > 0 ==> Fits(stack, ends, end, top - 1);
    forall i: nat | i < top ensures Fits(Advance(stack[..top], stack[top].size), ends[..top], end, i) {
      assert Fits(stack, ends, end, i);
    }
  }

  // ---- whole inputs ------------------------------------------------------------------

  /** Decodes an input that holds exactly one value. Accepted is exactly what an item encodes to,
      and the item is handed back. */
  method DecodeBytes(b: seq<Byte>) returns (r: Result<Item>)
    ensures r.Ok? ==> Encode(r.value) == b
    ensures forall x :: Encode(x) == b && |b| < U64 ==> r == Ok(x)
  {
    hide Parse, ParseAll, Encode, HeadOf;
    var s := new Stream(b);
    assert s.Ahead() == b;
    OnlyEncodings(b);
    var item := s.DecodeInterface();
    if item.Err? {
      return item;
    }
    if s.pos < |b| {
      return Err(MoreThanOneValue);
    }
    r := item;
  }

  lemma OnlyEncodings(b: seq<Byte>)
    ensures Parse(b).Some? && Parse(b).value.1 == |b| ==> Encode(Parse(b).value.0) == b
    ensures forall x :: Encode(x) == b && |b| < U64 ==> Parse(b) == Some((x, |b|)) && b != []
  {
    if Parse(b).Some? {
      EncodeParse(b);
      assert b[..|b|] == b;
    }
    forall x | Encode(x) == b && |b| < U64 ensures Parse(b) == Some((x, |b|)) && b != [] {
      ParseEncode(x, []);
      assert b + [] == b;
    }
  }

  /** The string that an unsigned integer is written as: no leading zeros, nothing for zero. */
  function IntString(v: nat): seq<Byte> {
    if v == 0 then [] else BigEndian(v)
  }

  /** Integers are read back from what they are written as, and from nothing else. */
  lemma IntsRoundTrip(v: nat, maxBytes: nat, b: seq<Byte>, n: nat)
    requires maxBytes <= 8
    ensures |IntString(v)| <= maxBytes ==>
      IntAt(Encode(Str(IntString(v))) + b, maxBytes) == Some((v, |Encode(Str(IntString(v)))|))
    ensures IntAt(b, maxBytes) == Some((v, n)) ==> n <= |b| && Encode(Str(IntString(v))) == b[..n]
  {
    var s := IntString(v);
    if |s| <= maxBytes {
      ParseEncode(Str(s), b);
      ParseByHead(Encode(Str(s)) + b);
      assert StringAt(Encode(Str(s)) + b) == Some((s, |Encode(Str(s))|));
      if v > 0 {
        NoLeadingZero(v);
      }
      FromBigEndianOf(v);
    }
    if IntAt(b, maxBytes) == Some((v, n)) {
      var t := StringAt(b).value.0;
      ParseByHead(b);
      EncodeParse(b);
      if t != [] {
        BigEndianOf(t);
      }
    }
  }
}
