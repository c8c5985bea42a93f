/** The sponge construction of sections 4 and 5.1 of FIPS 202, on bytes. The permutation works on
    25 lanes of 64 bits and is left open. */
module SpongeSpec {
  import opened Common
  const STATE_BYTES: nat := 200
  const LANES: nat := 25

  type Octets = seq<bv8>
  type Lanes = seq<bv64>

  // ---- lanes and bytes ---------------------------------------------------------------

  /** The j-th byte of a lane, lowest first. */
  function LaneByte(x: bv64, j: nat): bv8
    requires j < 8
  {
    match j
    case 0 => (x & 0xFF) as bv8
    case 1 => ((x >> 8) & 0xFF) as bv8
    case 2 => ((x >> 16) & 0xFF) as bv8
    case 3 => ((x >> 24) & 0xFF) as bv8
    case 4 => ((x >> 32) & 0xFF) as bv8
    case 5 => ((x >> 40) & 0xFF) as bv8
    case 6 => ((x >> 48) & 0xFF) as bv8
    case 7 => ((x >> 56) & 0xFF) as bv8
  }

  /** Eight bytes as a lane, lowest first. */
  function Lane(b: Octets): bv64
    requires |b| == 8
  {
    (b[0] as bv64) | ((b[1] as bv64) << 8) | ((b[2] as bv64) << 16) | ((b[3] as bv64) << 24)
    | ((b[4] as bv64) << 32) | ((b[5] as bv64) << 40) | ((b[6] as bv64) << 48) | ((b[7] as bv64) << 56)
  }

  function Xor8(x: bv8, y: bv8): bv8 { x ^ y }

  function Xor64(x: bv64, y: bv64): bv64 { x ^ y }

  lemma LaneLowBytes(b: Octets)
    requires |b| == 8
    ensures LaneByte(Lane(b), 0) == b[0] && LaneByte(Lane(b), 1) == b[1] && LaneByte(Lane(b), 2) == b[2] && LaneByte(Lane(b), 3) == b[3]
  {
  }

  lemma LaneHighBytes(b: Octets)
    requires |b| == 8
    ensures LaneByte(Lane(b), 4) == b[4] && LaneByte(Lane(b), 5) == b[5] && LaneByte(Lane(b), 6) == b[6] && LaneByte(Lane(b), 7) == b[7]
  {
  }

  lemma LaneBytes(b: Octets, j: nat)
    requires |b| == 8 && j < 8
    ensures LaneByte(Lane(b), j) == b[j]
  {
    hide LaneByte, Lane;
    LaneLowBytes(b);
    LaneHighBytes(b);
    assert j == 0 || j == 1 || j == 2 || j == 3 || j == 4 || j == 5 || j == 6 || j == 7;
  }

  lemma XorLowBytes(x: bv64, y: bv64)
    ensures LaneByte(x ^ y, 0) == LaneByte(x, 0) ^ LaneByte(y, 0) && LaneByte(x ^ y, 1) == LaneByte(x, 1) ^ LaneByte(y, 1)
    ensures LaneByte(x ^ y, 2) == LaneByte(x, 2) ^ LaneByte(y, 2) && LaneByte(x ^ y, 3) == LaneByte(x, 3) ^ LaneByte(y, 3)
  {
  }

  lemma XorHighBytes(x: bv64, y: bv64)
    ensures LaneByte(x ^ y, 4) == LaneByte(x, 4) ^ LaneByte(y, 4) && LaneByte(x ^ y, 5) == LaneByte(x, 5) ^ LaneByte(y, 5)
    ensures LaneByte(x ^ y, 6) == LaneByte(x, 6) ^ LaneByte(y, 6) && LaneByte(x ^ y, 7) == LaneByte(x, 7) ^ LaneByte(y, 7)
  {
  }

  lemma XorByte(x: bv64, y: bv64, j: nat)
    requires j < 8
    ensures LaneByte(Xor64(x, y), j) == Xor8(LaneByte(x, j), LaneByte(y, j))
  {
    hide LaneByte;
    XorLowBytes(x, y);
    XorHighBytes(x, y);
    assert j == 0 || j == 1 || j == 2 || j == 3 || j == 4 || j == 5 || j == 6 || j == 7;
  }

  lemma SameLane(x: bv64, y: bv64)
    requires forall j: nat :: j < 8 ==> LaneByte(x, j) == LaneByte(y, j)
    ensures x == y
  {
    assert LaneByte(x, 0) == LaneByte(y, 0) && LaneByte(x, 1) == LaneByte(y, 1) && LaneByte(x, 2) == LaneByte(y, 2);
    assert LaneByte(x, 3) == LaneByte(y, 3) && LaneByte(x, 4) == LaneByte(y, 4) && LaneByte(x, 5) == LaneByte(y, 5);
    assert LaneByte(x, 6) == LaneByte(y, 6) && LaneByte(x, 7) == LaneByte(y, 7);
  }

  function ToBytes(lanes: Lanes): (r: Octets)
    ensures |r| == 8 * |lanes| && forall i :: 0 <= i < |r| ==> r[i] == LaneByte(lanes[i / 8], i % 8)
  {
    seq(8 * |lanes|, i requires 0 <= i < 8 * |lanes| => LaneByte(lanes[i / 8], i % 8))
  }

  function ToLanes(b: Octets): (r: Lanes)
    requires |b| % 8 == 0
    ensures |r| == |b| / 8 && forall i :: 0 <= i < |r| ==> r[i] == Lane(b[8 * i..8 * i + 8])
  {
    seq(|b| / 8, i requires 0 <= i < |b| / 8 => Lane(b[8 * i..8 * i + 8]))
  }

  lemma LanesBack(lanes: Lanes)
    ensures ToLanes(ToBytes(lanes)) == lanes
  {
    hide LaneByte, Lane;
    var b := ToBytes(lanes);
    forall i | 0 <= i < |lanes| ensures Lane(b[8 * i..8 * i + 8]) == lanes[i] {
      forall j: nat | j < 8 ensures LaneByte(Lane(b[8 * i..8 * i + 8]), j) == LaneByte(lanes[i], j) {
        LaneBytes(b[8 * i..8 * i + 8], j);
        assert b[8 * i..8 * i + 8][j] == b[8 * i + j];
      }
      SameLane(Lane(b[8 * i..8 * i + 8]), lanes[i]);
    }
  }

  // ---- the construction --------------------------------------------------------------

  /** Stands for the Keccak-f permutation. That it maps 25 lanes to 25 lanes is all that is used;
      that it can be inverted is not. */
  ghost predicate KeepsLength(g: Lanes -> Lanes) {
    forall x {:trigger g(x)} :: |x| == LANES ==> |g(x)| == LANES
  }

  /** The lane function on the state as a byte string. */
  ghost function F(g: Lanes -> Lanes, s: Octets): (r: Octets)
    requires KeepsLength(g) && |s| == STATE_BYTES
    ensures |r| == STATE_BYTES
  {
    ToBytes(g(ToLanes(s)))
  }

  /** The block xored into the front of the state. */
  function XorInto(s: Octets, block: Octets): (r: Octets)
    requires |block| <= |s|
    ensures |r| == |s|
  {
    seq(|s|, i requires 0 <= i < |s| => if i < |block| then Xor8(s[i], block[i]) else s[i])
  }

  ghost function Zero(): Octets { seq(STATE_BYTES, i => 0) }

  ghost predicate RateOk(rate: nat) {
    0 < rate <= 168 && rate % 8 == 0
  }

  /** The domain bits and the padding that follow a message: the first padding bit is in `ds`, the
      last is the top bit of the block's last byte. */
  ghost function Padding(rate: nat, ds: bv8, length: nat): (r: Octets)
    requires rate > 0
    ensures |r| == rate - length % rate
  {
    var n := rate - length % rate;
    if n == 1 then [ds ^ 0x80] else [ds] + seq(n - 2, i => 0) + [0x80]
  }

  /** Absorbs all full blocks of `m`. */
  ghost function Absorb(g: Lanes -> Lanes, rate: nat, s: Octets, m: Octets): (r: Octets)
    requires KeepsLength(g) && RateOk(rate) && |s| == STATE_BYTES
    ensures |r| == STATE_BYTES
    decreases |m|
  {
    if |m| < rate then s else Absorb(g, rate, F(g, XorInto(s, m[..rate])), m[rate..])
  }

  /** The first `n` bytes that a state gives. */
  ghost function Squeeze(g: Lanes -> Lanes, rate: nat, s: Octets, n: nat): (r: Octets)
    requires KeepsLength(g) && RateOk(rate) && |s| == STATE_BYTES
    ensures |r| == n
    decreases n
  {
    if n <= rate then s[..n] else s[..rate] + Squeeze(g, rate, F(g, s), n - rate)
  }

  /** The state after the whole padded message. */
  ghost function Absorbed(g: Lanes -> Lanes, rate: nat, ds: bv8, m: Octets): (r: Octets)
    requires KeepsLength(g) && RateOk(rate)
    ensures |r| == STATE_BYTES
  {
    Absorb(g, rate, Zero(), m + Padding(rate, ds, |m|))
  }

  /** SPONGE[f, pad, rate](m, n). */
  ghost function Sponge(g: Lanes -> Lanes, rate: nat, ds: bv8, m: Octets, n: nat): Octets
    requires KeepsLength(g) && RateOk(rate)
  {
    Squeeze(g, rate, Absorbed(g, rate, ds, m), n)
  }

  /** The bytes of a message shorter than a block, the domain byte and the last padding bit. */
  ghost function Filled(rate: nat, ds: bv8, m: Octets): (s: Octets)
    requires |m| < rate <= 200
    ensures |s| == 200
  {
    seq(200, i requires 0 <= i < 200 =>
      if i < |m| then m[i]
      else if i == |m| == rate - 1 then ds ^ 0x80
      else if i == |m| then ds
      else if i == rate - 1 then 0x80
      else 0)
  }

  /** For a message shorter than a block that is the whole state before the one permutation, and the
      output is the front of the state after it. */
  lemma OneBlock(g: Lanes -> Lanes, rate: nat, ds: bv8, m: Octets, n: nat)
    requires KeepsLength(g) && RateOk(rate) && |m| < rate && n <= rate
    ensures Sponge(g, rate, ds, m, n) == ToBytes(g(ToLanes(Filled(rate, ds, m))))[..n]
  {
    hide LaneByte, Lane, ToBytes, ToLanes, F;
    var padded := m + Padding(rate, ds, |m|);
    SameRemainder(|m|, rate, 0, |m|);
    AbsorbBlock(g, rate, Zero(), padded);
    var s := XorInto(Zero(), padded);
    forall i | 0 <= i < 200 ensures s[i] == Filled(rate, ds, m)[i] {
      if i < rate {
        XorZero(padded[i]);
      }
    }
    assert s == Filled(rate, ds, m);
    FirstBlock(g, rate, F(g, s), n);
    FIs(g, s);
  }

  lemma XorZero(x: bv8)
    ensures Xor8(0, x) == x
  {
  }

  lemma FIs(g: Lanes -> Lanes, s: Octets)
    requires KeepsLength(g) && |s| == 200
    ensures F(g, s) == ToBytes(g(ToLanes(s)))
  {
  }

  // ---- block by block ----------------------------------------------------------------

  /** What is left of a message after its full blocks. */
  ghost function Rest(rate: nat, m: Octets): (r: Octets)
    requires rate > 0
    ensures |r| == |m| % rate
    decreases |m|
  {
    if |m| < rate then m else
      ModStep(|m|, rate);
      Rest(rate, m[rate..])
  }

  lemma ModStep(n: nat, rate: nat)
    requires 0 < rate <= n
    ensures (n - rate) % rate == n % rate
  {
    SameRemainder(n - rate, rate, n / rate - 1, n % rate);
  }

  lemma AtLeastOnce(d: nat, k: nat)
    requires k >= 1
    ensures d * k >= d
  {
  }

  lemma SameRemainder(n: nat, d: nat, q: int, r: nat)
    requires d > 0 && r < d && n == d * q + r
    ensures n % d == r
  {
    var q', r' := n / d, n % d;
    assert n == d * q' + r';
    if q > q' {
      AtLeastOnce(d, q - q');
    } else if q < q' {
      AtLeastOnce(d, q' - q);
    }
  }

  /** Absorbing goes on where it stopped. */
  lemma {:induction false} AbsorbMore(g: Lanes -> Lanes, rate: nat, s: Octets, m: Octets, more: Octets)
    requires KeepsLength(g) && RateOk(rate) && |s| == STATE_BYTES
    ensures Absorb(g, rate, s, m + more) == Absorb(g, rate, Absorb(g, rate, s, m), Rest(rate, m) + more)
    ensures Rest(rate, m + more) == Rest(rate, Rest(rate, m) + more)
    decreases |m|
  {
    if |m| >= rate {
      var t := F(g, XorInto(s, m[..rate]));
      assert (m + more)[..rate] == m[..rate] && (m + more)[rate..] == m[rate..] + more;
      AbsorbMore(g, rate, t, m[rate..], more);
    }
  }

  /** A full block is xored in and permuted. */
  lemma AbsorbBlock(g: Lanes -> Lanes, rate: nat, s: Octets, block: Octets)
    requires KeepsLength(g) && RateOk(rate) && |s| == STATE_BYTES && |block| == rate
    ensures Absorb(g, rate, s, block) == F(g, XorInto(s, block)) && Rest(rate, block) == []
  {
    assert block[..rate] == block && block[rate..] == [];
  }

  /** The state after `k` further permutations. */
  ghost function Turned(g: Lanes -> Lanes, s: Octets, k: nat): (r: Octets)
    requires KeepsLength(g) && |s| == STATE_BYTES
    ensures |r| == STATE_BYTES
  {
    if k == 0 then s else F(g, Turned(g, s, k - 1))
  }

  lemma {:induction false} TurnedFirst(g: Lanes -> Lanes, s: Octets, k: nat)
    requires KeepsLength(g) && |s| == STATE_BYTES
    ensures Turned(g, F(g, s), k) == Turned(g, s, k + 1)
  {
    if k > 0 {
      TurnedFirst(g, s, k - 1);
    }
  }

  /** The output, block by block: after `k` blocks and `i` bytes, the next `n` bytes of the block
      are those of the state turned `k` times. */
  lemma {:induction false} SqueezeMore(g: Lanes -> Lanes, rate: nat, s: Octets, k: nat, i: nat, n: nat)
    requires KeepsLength(g) && RateOk(rate) && |s| == STATE_BYTES && i + n <= rate
    ensures Squeeze(g, rate, s, k * rate + i + n) == Squeeze(g, rate, s, k * rate + i) + Turned(g, s, k)[i..i + n]
    decreases k
  {
    hide Squeeze, F, KeepsLength;
    if k == 0 {
      FirstBlock(g, rate, s, i);
      FirstBlock(g, rate, s, i + n);
      assert s[..i + n] == s[..i] + s[i..i + n];
    } else {
      SqueezeMore(g, rate, F(g, s), k - 1, i, n);
      TurnedFirst(g, s, k - 1);
      assert k * rate == (k - 1) * rate + rate;
      BlockInFront(g, rate, s, (k - 1) * rate + i, n, Turned(g, s, k)[i..i + n]);
    }
  }

  lemma BlockInFront(g: Lanes -> Lanes, rate: nat, s: Octets, m: nat, n: nat, piece: Octets)
    requires KeepsLength(g) && RateOk(rate) && |s| == STATE_BYTES
    requires Squeeze(g, rate, F(g, s), m + n) == Squeeze(g, rate, F(g, s), m) + piece
    ensures Squeeze(g, rate, s, rate + m + n) == Squeeze(g, rate, s, rate + m) + piece
  {
    hide Squeeze, F, KeepsLength;
    SqueezeBlock(g, rate, s, m);
    SqueezeBlock(g, rate, s, m + n);
    Regroup(s[..rate], Squeeze(g, rate, F(g, s), m), piece);
  }

  lemma FirstBlock(g: Lanes -> Lanes, rate: nat, s: Octets, n: nat)
    requires KeepsLength(g) && RateOk(rate) && |s| == STATE_BYTES && n <= rate
    ensures Squeeze(g, rate, s, n) == s[..n]
  {
  }

  lemma SqueezeBlock(g: Lanes -> Lanes, rate: nat, s: Octets, n: nat)
    requires KeepsLength(g) && RateOk(rate) && |s| == STATE_BYTES
    ensures Squeeze(g, rate, s, rate + n) == s[..rate] + Squeeze(g, rate, F(g, s), n)
  {
    if n == 0 {
      assert Squeeze(g, rate, F(g, s), 0) == [];
    }
  }

  /** Taking in as much as fits into the current block. */
  lemma AbsorbStep(g: Lanes -> Lanes, rate: nat, s: Octets, m: Octets, more: Octets)
    requires KeepsLength(g) && RateOk(rate) && |s| == STATE_BYTES && |Rest(rate, m)| + |more| <= rate
    ensures
      var block := Rest(rate, m) + more;
      if |block| < rate then Absorb(g, rate, s, m + more) == Absorb(g, rate, s, m) && Rest(rate, m + more) == block
      else Absorb(g, rate, s, m + more) == F(g, XorInto(Absorb(g, rate, s, m), block)) && Rest(rate, m + more) == []
  {
    var block := Rest(rate, m) + more;
    AbsorbMore(g, rate, s, m, more);
    if |block| == rate {
      AbsorbBlock(g, rate, Absorb(g, rate, s, m), block);
    }
  }
}
