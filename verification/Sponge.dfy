/** The hash state with its buffer (crypto/sha3/sha3.go, crypto/sha3/xor_generic.go). */
module Sponge {
  import opened Common
  import opened SpongeSpec

  const MAX_RATE: nat := 168

  /** One lane more of the block is in the state. */
  lemma XorLaneAt(before: Lanes, after: Lanes, block: Octets, i: nat, k: nat)
    requires |before| == |after| == LANES && i < LANES && k < STATE_BYTES && 8 * i + 8 <= |block|
    requires after == before[i := Xor64(before[i], Lane(block[8 * i..8 * i + 8]))]
    ensures ToBytes(after)[k] == if 8 * i <= k < 8 * i + 8 then Xor8(ToBytes(before)[k], block[k]) else ToBytes(before)[k]
  {
    hide LaneByte, Lane, ToBytes, Xor8, Xor64;
    var l, j := k / 8, k % 8;
    assert k == 8 * l + j;
    assert ToBytes(after)[k] == LaneByte(after[l], j) && ToBytes(before)[k] == LaneByte(before[l], j);
    if l == i {
      var b := block[8 * i..8 * i + 8];
      XorByte(before[i], Lane(b), j);
      LaneBytes(b, j);
      assert b[j] == block[k];
    } else {
      assert after[l] == before[l];
    }
  }

  lemma XorLane(before: Lanes, after: Lanes, block: Octets, i: nat)
    requires |before| == |after| == LANES && i < LANES && 8 * i + 8 <= |block|
    requires after == before[i := Xor64(before[i], Lane(block[8 * i..8 * i + 8]))]
    ensures forall k :: 0 <= k < STATE_BYTES ==>
      ToBytes(after)[k] == if 8 * i <= k < 8 * i + 8 then Xor8(ToBytes(before)[k], block[k]) else ToBytes(before)[k]
  {
    hide LaneByte, Lane, ToBytes, Xor8, Xor64;
    forall k | 0 <= k < STATE_BYTES
      ensures ToBytes(after)[k] == if 8 * i <= k < 8 * i + 8 then Xor8(ToBytes(before)[k], block[k]) else ToBytes(before)[k]
    {
      XorLaneAt(before, after, block, i, k);
    }
  }

  class State {
    const a: array<bv64>
    const storage: array<bv8>
    var lo: nat
    var hi: nat
    const rate: nat
    const dsbyte: bv8
    const outputLen: nat
    var squeezing: bool
    const g: Lanes -> Lanes
    ghost var message: Octets
    ghost var squeezed: nat
    ghost var blocks: nat

    ghost predicate Shape()
      reads this
    {
      a.Length == LANES && storage.Length == MAX_RATE && RateOk(rate) && KeepsLength(g) && lo <= hi <= rate
    }

    /** The state as a byte string. */
    ghost function Bytes(): Octets
      reads a
    {
      ToBytes(a[..])
    }

    /** Xors a block into the state, lane by lane. */
    method XorIn(block: Octets)
      requires Shape() && |block| % 8 == 0 && |block| <= STATE_BYTES
      modifies a
      ensures Bytes() == XorInto(old(Bytes()), block)
      ensures forall k :: 0 <= k < 200 ==> Bytes()[k] == if k < |block| then old(Bytes())[k] ^ block[k] else old(Bytes())[k]
    {
      hide LaneByte, Lane, Xor64;
      var n := |block| / 8;
      for i := 0 to n
        invariant forall k :: 0 <= k < STATE_BYTES ==> Bytes()[k] == if k < 8 * i then Xor8(old(Bytes())[k], block[k]) else old(Bytes())[k]
      {
        ghost var before := a[..];
        a[i] := Xor64(a[i], Lane(block[8 * i..8 * i + 8]));
        XorLane(before, a[..], block, i);
      }
    }

    /** Copies the front of the state out to the buffer's storage. */
    method CopyOut()
      requires Shape()
      modifies storage
      ensures storage[..rate] == Bytes()[..rate]
    {
      hide LaneByte;
      for i := 0 to rate / 8
        invariant forall k :: 0 <= k < 8 * i ==> storage[k] == Bytes()[k]
      {
        for j := 0 to 8
          invariant forall k :: 0 <= k < 8 * i + j ==> storage[k] == Bytes()[k]
        {
          storage[8 * i + j] := LaneByte(a[i], j);
        }
      }
    }

    /** Applies the permutation to the lanes. */
    method KeccakF()
      requires Shape()
      modifies a
      ensures Bytes() == F(g, old(Bytes()))
    {
      hide LaneByte, Lane;
      LanesBack(a[..]);
      var lanes := g(a[..]);
      for i := 0 to LANES
        invariant a[..i] == lanes[..i]
      {
        a[i] := lanes[i];
      }
      assert a[..] == lanes;
    }

    // ---- absorbing -------------------------------------------------------------------

    ghost predicate Valid()
      reads this, a, storage
    {
      Shape() && (if squeezing then Giving() else Taking())
    }

    /** The full blocks of the message are in the state, the rest is in the buffer. */
    ghost predicate Taking()
      requires Shape()
      reads this, a, storage
    {
      && lo == 0 && hi < rate && squeezed == 0
      && Bytes() == Absorb(g, rate, Zero(), message) && storage[..hi] == Rest(rate, message)
    }

    /** The buffer holds what is left of the current block of output. */
    ghost predicate Giving()
      requires Shape()
      reads this, a, storage
    {
      && hi == rate && lo < rate && squeezed == blocks * rate + lo
      && Bytes() == Turned(g, Absorbed(g, rate, dsbyte, message), blocks)
      && storage[..rate] == Bytes()[..rate]
    }

    constructor (g: Lanes -> Lanes, rate: nat, dsbyte: bv8, outputLen: nat)
      requires KeepsLength(g) && RateOk(rate)
      ensures Valid() && !squeezing && message == [] && fresh(a) && fresh(storage)
      ensures this.g == g && this.rate == rate && this.dsbyte == dsbyte && this.outputLen == outputLen
    {
      this.g, this.rate, this.dsbyte, this.outputLen := g, rate, dsbyte, outputLen;
      a := new bv64[LANES](i => 0);
      storage := new bv8[MAX_RATE];
      lo, hi, squeezing, message, squeezed, blocks := 0, 0, false, [], 0, 0;
      new;
      ZeroBytes(a[..]);
    }

    /** Back to the start. */
    method Reset()
      requires Shape()
      modifies this, a
      ensures Valid() && !squeezing && message == []
    {
      for i := 0 to LANES
        invariant forall k :: 0 <= k < i ==> a[k] == 0
      {
        a[i] := 0;
      }
      squeezing, lo, hi, message, squeezed := false, 0, 0, [], 0;
      ZeroBytes(a[..]);
    }

    /** The full buffer goes into the state. */
    method AbsorbBuffer()
      requires Shape() && !squeezing && lo == 0 && hi == rate
      modifies this`hi, a
      ensures Shape() && hi == 0 && Bytes() == F(g, XorInto(old(Bytes()), old(storage[..rate])))
    {
      XorIn(storage[..hi]);
      hi := 0;
      KeccakF();
    }

    /** Appends to the buffer. */
    method Append(p: Octets)
      requires Shape() && hi + |p| <= rate
      modifies this`hi, storage
      ensures Shape() && hi == old(hi) + |p| && storage[..hi] == old(storage[..hi]) + p
    {
      for i := 0 to |p|
        invariant hi == old(hi) && storage[..hi + i] == old(storage[..hi]) + p[..i]
      {
        storage[hi + i] := p[i];
        assert storage[..hi + i + 1] == storage[..hi + i] + [p[i]];
      }
      hi := hi + |p|;
    }

    /** Takes in more of the message. However it is split, only the whole counts. */
    method Write(p: Octets)
      requires Valid() && !squeezing
      modifies this`hi, this`message, a, storage
      ensures Valid() && message == old(message) + p
    {
      hide F, XorInto, Absorb, Rest, LaneByte, Turned, Absorbed, ToBytes, KeepsLength;
      var q := p;
      while |q| > 0
        invariant Valid() && !squeezing && message + q == old(message) + p
        decreases |q|
      {
        var todo := if hi == 0 && |q| >= rate then rate else if rate - hi > |q| then |q| else rate - hi;
        ghost var before := message;
        AbsorbStep(g, rate, Zero(), message, q[..todo]);
        if hi == 0 && |q| >= rate {
          assert Rest(rate, message) + q[..rate] == q[..rate];
          XorIn(q[..rate]);
          KeccakF();
        } else {
          Append(q[..todo]);
          if hi == rate {
            AbsorbBuffer();
          }
        }
        message := message + q[..todo];
        assert before + q == message + q[todo..];
        q := q[todo..];
      }
    }

    // ---- squeezing -------------------------------------------------------------------

    /** Fills the buffer up with the domain bits and the padding. */
    method Pad()
      requires Shape() && lo == 0 && hi < rate
      modifies this`hi, storage
      ensures Shape() && hi == rate && storage[..rate] == old(storage[..hi]) + Padding(rate, dsbyte, old(hi))
    {
      hide Xor8;
      ghost var front := storage[..hi];
      ghost var n := hi;
      storage[hi] := dsbyte;
      hi := hi + 1;
      for i := hi to rate
        invariant hi == n + 1 && storage[..n] == front && storage[n] == dsbyte
        invariant forall k :: n < k < i ==> storage[k] == 0
      {
        storage[i] := 0;
      }
      PaddingIs(rate, dsbyte, n);
      storage[rate - 1] := Xor8(storage[rate - 1], 0x80);
      hi := rate;
      assert storage[..rate] == front + Padding(rate, dsbyte, n);
    }

    /** The padded last block goes in, and the first block of output comes out. */
    method PadAndPermute()
      requires Valid() && !squeezing
      modifies this`lo, this`hi, this`squeezing, this`blocks, a, storage
      ensures Valid() && squeezing && squeezed == 0
    {
      hide F, XorInto, Absorb, Rest, LaneByte, Padding;
      ghost var n := hi;
      AbsorbStep(g, rate, Zero(), message, Padding(rate, dsbyte, |message|));
      SamePadding(rate, dsbyte, |message|);
      Pad();
      AbsorbBuffer();
      squeezing, lo, hi, blocks := true, 0, rate, 0;
      CopyOut();
    }

    /** The next block of output. */
    method NextBlock()
      requires Shape() && squeezing
      modifies this`lo, this`hi, a, storage
      ensures Shape() && lo == 0 && hi == rate && Bytes() == F(g, old(Bytes())) && storage[..rate] == Bytes()[..rate]
    {
      KeccakF();
      lo, hi := 0, rate;
      CopyOut();
    }

    /** Some of the current block; when it is used up, the next one is fetched. */
    method TakeFromBlock(m: nat) returns (piece: Octets)
      requires Valid() && squeezing && lo + m <= rate
      modifies this`lo, this`hi, this`squeezed, this`blocks, a, storage
      ensures Valid() && squeezed == old(squeezed) + m && |piece| == m
      ensures SpongeSpec.Sponge(g, rate, dsbyte, message, squeezed) == SpongeSpec.Sponge(g, rate, dsbyte, message, old(squeezed)) + piece
    {
      hide F, Absorb, Rest, LaneByte, Padding, Squeeze, Absorbed, ToBytes, KeepsLength, Turned;
      PieceOf(g, rate, Absorbed(g, rate, dsbyte, message), blocks, lo, m, storage[..rate]);
      piece := storage[lo..lo + m];
      assert piece == storage[..rate][lo..lo + m];
      lo, squeezed := lo + m, squeezed + m;
      if lo == rate {
        NextBlock();
        blocks := blocks + 1;
      }
    }

    /** The next `n` bytes of output. However the reads are split, together they give the stream
        of the sponge. */
    method Read(n: nat) returns (out: Octets)
      requires Valid()
      modifies this`lo, this`hi, this`squeezing, this`squeezed, this`blocks, a, storage
      ensures Valid() && squeezing && squeezed == old(squeezed) + n && |out| == n
      ensures SpongeSpec.Sponge(g, rate, dsbyte, message, squeezed) == SpongeSpec.Sponge(g, rate, dsbyte, message, old(squeezed)) + out
    {
      hide F, Absorb, Rest, LaneByte, Padding, SpongeSpec.Sponge, Absorbed;
      if !squeezing {
        PadAndPermute();
      }
      ghost var before := SpongeSpec.Sponge(g, rate, dsbyte, message, squeezed);
      out := [];
      while |out| < n
        invariant Valid() && squeezing && |out| <= n && squeezed == old(squeezed) + |out|
        invariant SpongeSpec.Sponge(g, rate, dsbyte, message, squeezed) == before + out
        decreases n - |out|
      {
        var m := if n - |out| < rate - lo then n - |out| else rate - lo;
        var piece := TakeFromBlock(m);
        Regroup(before, out, piece);
        out := out + piece;
      }
    }

    /** By how much a copy of a squeezing state lags behind: its buffer is placed by the capacity
        of the old one, which counts the unused end of the storage. */
    ghost function Lag(): int
      reads this
    {
      if squeezing then MAX_RATE - rate else 0
    }

    /** There is no place for the buffer of a copy, and the original panics. */
    ghost predicate NoCopy()
      requires rate > 0
      reads this
    {
      squeezing && squeezed % rate < MAX_RATE - rate
    }

    /** A copy, which goes on from where the state is exactly when it is absorbing or the rate is
        that of the whole storage. */
    method Clone() returns (r: Option<State>)
      requires Valid()
      ensures r.None? <==> NoCopy()
      ensures r.Some? ==>
        var d := r.value;
        && d.Valid() && d.squeezing == squeezing && d.message == message && fresh(d) && fresh(d.a) && fresh(d.storage)
        && d.g == g && d.rate == rate && d.dsbyte == dsbyte && d.outputLen == outputLen
        && d.squeezed == squeezed - Lag()
    {
      hide Absorb, Rest, ToBytes, KeepsLength, Turned, Absorbed;
      if squeezing {
        Offset(rate, blocks, lo);
        if rate + lo < MAX_RATE {
          return None;
        }
      }
      var d := Copy();
      if squeezing {
        d.lo, d.hi := rate - (MAX_RATE - lo), rate;
        d.squeezed := squeezed - Lag();
        assert d.storage[..rate] == storage[..rate];
      } else {
        d.hi := hi;
        assert d.storage[..hi] == storage[..hi];
      }
      r := Some(d);
    }

    /** The same lanes and the same storage. */
    method Copy() returns (d: State)
      requires Shape()
      ensures fresh(d) && fresh(d.a) && fresh(d.storage) && d.Shape() && d.lo == d.hi == 0
      ensures d.g == g && d.rate == rate && d.dsbyte == dsbyte && d.outputLen == outputLen && d.squeezing == squeezing
      ensures d.message == message && d.squeezed == 0 && d.blocks == blocks && d.a[..] == a[..] && d.storage[..] == storage[..]
    {
      hide Absorb, Rest, ToBytes, KeepsLength, Turned, Absorbed;
      d := new State(g, rate, dsbyte, outputLen);
      for i := 0 to LANES
        invariant d.a[..i] == a[..i]
        modifies d.a
      {
        d.a[i] := a[i];
      }
      assert d.a[..] == a[..];
      for i := 0 to MAX_RATE
        invariant d.storage[..i] == storage[..i]
        modifies d.storage
      {
        d.storage[i] := storage[i];
      }
      d.squeezing, d.message, d.blocks := squeezing, message, blocks;
    }

    /** The hash of everything written so far, which can still be written to. */
    method Sum(prefix: Octets) returns (r: Option<Octets>)
      requires Valid()
      ensures r.None? <==> NoCopy()
      ensures !squeezing ==> r == Some(prefix + SpongeSpec.Sponge(g, rate, dsbyte, message, outputLen))
      ensures r.Some? ==> exists hash :: r == Some(prefix + hash) && |hash| == outputLen && ComesNext(squeezed - Lag(), hash)
    {
      hide SpongeSpec.Sponge, Giving, Taking;
      var dup := Clone();
      if dup.None? {
        return None;
      }
      var hash := dup.value.Read(outputLen);
      assert ComesNext(squeezed - Lag(), hash);
      assert !squeezing ==> squeezed == 0 by { if !squeezing { Fresh(); } }
      NothingYet(g, rate, dsbyte, message, hash);
      r := Some(prefix + hash);
    }

    /** `piece` is the output behind the first `from` bytes. */
    ghost predicate ComesNext(from: int, piece: Octets)
      requires Shape()
      reads this
    {
      from >= 0 && SpongeSpec.Sponge(g, rate, dsbyte, message, from + |piece|) == SpongeSpec.Sponge(g, rate, dsbyte, message, from) + piece
    }

    lemma Fresh()
      requires Valid() && !squeezing
      ensures squeezed == 0
    {
    }
  }

  lemma Offset(rate: nat, blocks: nat, lo: nat)
    requires lo < rate
    ensures (blocks * rate + lo) % rate == lo
  {
    var x := blocks * rate + lo;
    assert x == x / rate * rate + x % rate;
    Apart(x / rate - blocks, rate);
  }

  lemma Apart(e: int, rate: nat)
    ensures e == 0 || e * rate >= rate || e * rate + rate <= 0
  {
  }

  /** A piece of the current block is the next piece of output. */
  lemma PieceOf(g: Lanes -> Lanes, rate: nat, s: Octets, k: nat, i: nat, m: nat, block: Octets)
    requires KeepsLength(g) && RateOk(rate) && |s| == STATE_BYTES && i + m <= rate && block == Turned(g, s, k)[..rate]
    ensures Squeeze(g, rate, s, k * rate + i + m) == Squeeze(g, rate, s, k * rate + i) + block[i..i + m]
    ensures Turned(g, s, k + 1) == F(g, Turned(g, s, k)) && (k + 1) * rate == k * rate + rate
  {
    hide Squeeze, F, KeepsLength;
    SqueezeMore(g, rate, s, k, i, m);
    assert block[i..i + m] == Turned(g, s, k)[i..i + m];
  }

  lemma NothingYet(g: Lanes -> Lanes, rate: nat, ds: bv8, message: Octets, hash: Octets)
    requires KeepsLength(g) && RateOk(rate)
    ensures SpongeSpec.Sponge(g, rate, ds, message, 0) + hash == hash
  {
  }

  lemma PaddingIs(rate: nat, ds: bv8, length: nat)
    requires length < rate
    ensures
      var p := Padding(rate, ds, length);
      && |p| == rate - length
      && (|p| == 1 ==> p[0] == Xor8(ds, 0x80))
      && (|p| > 1 ==> p[0] == ds && p[|p|-1] == Xor8(0, 0x80) && forall k :: 1 <= k < |p| - 1 ==> p[k] == 0)
  {
    assert length % rate == length;
  }

  /** Only the length of the last, incomplete block matters to the padding. */
  lemma SamePadding(rate: nat, ds: bv8, length: nat)
    requires rate > 0
    ensures Padding(rate, ds, length % rate) == Padding(rate, ds, length)
  {
  }

  lemma ZeroBytes(lanes: Lanes)
    requires |lanes| == LANES && forall k :: 0 <= k < LANES ==> lanes[k] == 0
    ensures ToBytes(lanes) == Zero()
  {
  }
}
