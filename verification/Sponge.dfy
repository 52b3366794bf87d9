/** Byte strings and lanes, and the sponge construction of section 4 of FIPS 202 over them. */
module Sponge {
  import opened Keccak
  import opened LaneBytes
  import Bits

  type Bytes = seq<Byte>

  const NUL: Byte := 0

  function Zeros(n: nat): (z: Bytes)
    ensures |z| == n
  {
    seq(n, i requires 0 <= i < n => NUL)
  }

  // ---- States as byte strings --------------------------------------------------------

  /** The 200 bytes of a state, as a little-endian machine stores its lanes. */
  type StateBytes = b: Bytes | |b| == 200 witness Zeros(200)

  function LaneAt(b: Bytes, i: nat): Lane
    requires 8 * i + 8 <= |b|
  {
    LaneOf(b[8 * i], b[8 * i + 1], b[8 * i + 2], b[8 * i + 3], b[8 * i + 4], b[8 * i + 5], b[8 * i + 6], b[8 * i + 7])
  }

  function LanesOf(b: StateBytes): State {
    seq(25, i requires 0 <= i < 25 => LaneAt(b, i))
  }

  function BytesOf(s: State): StateBytes {
    seq(200, j requires 0 <= j < 200 => ByteOf(s[j / 8], j % 8))
  }

  lemma ByteOfLaneAt(b: Bytes, i: nat, k: nat)
    requires 8 * i + 8 <= |b| && k < 8
    ensures ByteOf(LaneAt(b, i), k) == b[8 * i + k]
  {
    hide ByteOf, LaneOf;
    ByteOfLane(b[8 * i..8 * i + 8], k);
  }

  lemma BytesOfLanesOf(b: StateBytes)
    ensures BytesOf(LanesOf(b)) == b
  {
    hide ByteOf, LaneAt;
    forall j | 0 <= j < 200 ensures ByteOf(LaneAt(b, j / 8), j % 8) == b[j] {
      ByteOfLaneAt(b, j / 8, j % 8);
    }
  }

  lemma LanesOfBytesOf(s: State)
    ensures LanesOf(BytesOf(s)) == s
  {
    hide ByteOf, LaneOf;
    var b := BytesOf(s);
    forall i | 0 <= i < 25 ensures LaneAt(b, i) == s[i] {
      BytesOfLaneAt(s, b, i);
      LaneOfBytes(s[i]);
    }
  }

  lemma BytesOfLaneAt(s: State, b: StateBytes, i: nat)
    requires i < 25 && b == BytesOf(s)
    ensures b[8 * i] == ByteOf(s[i], 0)
    ensures b[8 * i + 1] == ByteOf(s[i], 1)
    ensures b[8 * i + 2] == ByteOf(s[i], 2)
    ensures b[8 * i + 3] == ByteOf(s[i], 3)
    ensures b[8 * i + 4] == ByteOf(s[i], 4)
    ensures b[8 * i + 5] == ByteOf(s[i], 5)
    ensures b[8 * i + 6] == ByteOf(s[i], 6)
    ensures b[8 * i + 7] == ByteOf(s[i], 7)
  {
    hide ByteOf;
    assert (8 * i + 0) / 8 == i && (8 * i + 0) % 8 == 0;
    assert (8 * i + 1) / 8 == i && (8 * i + 1) % 8 == 1;
    assert (8 * i + 2) / 8 == i && (8 * i + 2) % 8 == 2;
    assert (8 * i + 3) / 8 == i && (8 * i + 3) % 8 == 3;
    assert (8 * i + 4) / 8 == i && (8 * i + 4) % 8 == 4;
    assert (8 * i + 5) / 8 == i && (8 * i + 5) % 8 == 5;
    assert (8 * i + 6) / 8 == i && (8 * i + 6) % 8 == 6;
    assert (8 * i + 7) / 8 == i && (8 * i + 7) % 8 == 7;
  }

  // ---- The sponge --------------------------------------------------------------------

  /** The permutation on byte strings. */
  function F(b: StateBytes): StateBytes {
    BytesOf(Permutation(LanesOf(b)))
  }

  /** b with the bytes of p added to its first ones. */
  function XorInto(b: StateBytes, p: Bytes): StateBytes
    requires |p| <= 200
  {
    seq(200, j requires 0 <= j < 200 => if j < |p| then XorByte(b[j], p[j]) else b[j])
  }

  const ZERO: StateBytes := Zeros(200)

  /** The state after every full block of m has been added and permuted; r is the rate in bytes. */
  function Absorb(b: StateBytes, m: Bytes, r: nat): StateBytes
    requires 0 < r <= 200
    decreases |m|
  {
    if |m| < r then b else Absorb(F(XorInto(b, m[..r])), m[r..], r)
  }

  /** Absorbing a whole number of blocks and then the rest. */
  lemma {:induction false} AbsorbConcat(b: StateBytes, m: Bytes, n: Bytes, r: nat)
    requires 0 < r <= 200 && |m| % r == 0
    ensures Absorb(b, m + n, r) == Absorb(Absorb(b, m, r), n, r)
    decreases |m|
  {
    hide F, XorInto;
    if m == [] {
      assert m + n == n;
    } else {
      WholeBlock(|m|, r);
      assert (m + n)[..r] == m[..r] && (m + n)[r..] == m[r..] + n;
      AbsorbConcat(F(XorInto(b, m[..r])), m[r..], n, r);
    }
  }

  lemma WholeBlock(n: nat, r: nat)
    requires r > 0 && n > 0 && n % r == 0
    ensures n >= r && (n - r) % r == 0
  {
    var q := n / r;
    assert n == r * q;
    Bits.NonzeroMultiple(r, q);
    assert r * (q - 1) == r * q - r;
    Bits.DivUnique(n - r, r, q - 1, 0);
  }

  // ---- Messages that arrive in pieces ------------------------------------------------

  /** How many of n bytes lie behind the last full block. */
  function Rest(n: nat, r: nat): (k: nat)
    requires r > 0
    ensures k < r && k <= n
  {
    n % r
  }

  /** What is left of m behind its last full block. */
  function Tail(m: Bytes, r: nat): Bytes
    requires r > 0
  {
    m[|m| - Rest(|m|, r)..]
  }

  /** Absorbing m + p is absorbing m and then p behind the tail of m. */
  lemma AbsorbMore(b: StateBytes, m: Bytes, p: Bytes, r: nat)
    requires 0 < r <= 200
    ensures Absorb(b, m + p, r) == Absorb(Absorb(b, m, r), Tail(m, r) + p, r)
  {
    hide F, XorInto, Absorb, Rest;
    var t := Tail(m, r);
    var w := m[..|m| - |t|];
    Divisible(|m|, r);
    AbsorbConcat(b, w, t + p, r);
    AbsorbConcat(b, w, t, r);
    AbsorbShort(Absorb(b, w, r), t, r);
    assert m == w + t;
    assert m + p == w + (t + p);
  }

  lemma Divisible(n: nat, r: nat)
    requires r > 0
    ensures (n - Rest(n, r)) % r == 0
  {
    Bits.DivUnique(n - n % r, r, n / r, 0);
  }

  lemma AbsorbShort(b: StateBytes, t: Bytes, r: nat)
    requires |t| < r <= 200
    ensures Absorb(b, t, r) == b
  {
  }

  lemma AbsorbBlock(b: StateBytes, t: Bytes, r: nat)
    requires 0 < |t| == r <= 200
    ensures Absorb(b, t, r) == F(XorInto(b, t))
  {
    hide F, XorInto;
    assert t[..r] == t && t[r..] == [];
  }

  lemma TailMore(m: Bytes, p: Bytes, r: nat)
    requires r > 0
    ensures Tail(m + p, r) == Tail(Tail(m, r) + p, r)
  {
    hide Rest;
    RestMore(|m|, |p|, r);
    SameSuffix(m, p, Tail(m, r), Rest(|m + p|, r));
  }

  lemma SameSuffix(m: Bytes, p: Bytes, t: Bytes, k: nat)
    requires |t| <= |m| && t == m[|m| - |t|..] && k <= |t| + |p|
    ensures (m + p)[|m + p| - k..] == (t + p)[|t + p| - k..]
  {
  }

  lemma RestMore(n: nat, k: nat, r: nat)
    requires r > 0
    ensures Rest(Rest(n, r) + k, r) == Rest(n + k, r)
  {
    var q := (n + k) / r;
    var d := n / r;
    assert n + k == r * q + (n + k) % r;
    assert n == r * d + n % r;
    assert r * (q - d) == r * q - r * d;
    assert n % r + k == r * (q - d) + (n + k) % r;
    Bits.DivUnique(n % r + k, r, q - d, (n + k) % r);
  }

  /** Bytes that do not fill the block only join the tail. */
  lemma Fed(m: Bytes, p: Bytes, r: nat)
    requires 0 < r <= 200 && Rest(|m|, r) + |p| < r
    ensures Absorb(ZERO, m + p, r) == Absorb(ZERO, m, r)
    ensures Tail(m + p, r) == Tail(m, r) + p
    ensures Rest(|m + p|, r) == Rest(|m|, r) + |p|
  {
    hide F, XorInto, Absorb, Rest;
    var u := Tail(m, r) + p;
    AbsorbMore(ZERO, m, p, r);
    AbsorbShort(Absorb(ZERO, m, r), u, r);
    RestMore(|m|, |p|, r);
    RestOfShort(|u|, r);
    TailMore(m, p, r);
    assert Tail(u, r) == u;
  }

  /** Bytes that fill the block have it added and permuted, and leave no tail. */
  lemma Filled(m: Bytes, p: Bytes, r: nat)
    requires 0 < r <= 200 && Rest(|m|, r) + |p| == r
    ensures Absorb(ZERO, m + p, r) == F(XorInto(Absorb(ZERO, m, r), Tail(m, r) + p))
    ensures Tail(m + p, r) == []
    ensures Rest(|m + p|, r) == 0
  {
    hide F, XorInto, Absorb, Rest;
    var u := Tail(m, r) + p;
    AbsorbMore(ZERO, m, p, r);
    AbsorbBlock(Absorb(ZERO, m, r), u, r);
    RestMore(|m|, |p|, r);
    RestOfBlock(r);
  }

  lemma RestIs(n: nat, r: nat)
    requires r > 0
    ensures Rest(n, r) == n % r
  {
  }

  lemma TailLength(m: Bytes, r: nat)
    requires r > 0
    ensures |Tail(m, r)| == Rest(|m|, r)
  {
  }

  lemma NoTail(m: Bytes, r: nat)
    requires r > 0 && Rest(|m|, r) == 0
    ensures Tail(m, r) == []
  {
    hide Rest;
  }

  lemma RestOfShort(n: nat, r: nat)
    requires n < r
    ensures Rest(n, r) == n
  {
  }

  lemma RestOfBlock(r: nat)
    requires r > 0
    ensures Rest(r, r) == 0
  {
  }

  lemma NothingAbsorbed(r: nat)
    requires 0 < r <= 200
    ensures Absorb(ZERO, [], r) == ZERO && Tail([], r) == [] && Rest(0, r) == 0
  {
  }

  // ---- Adding bytes one at a time ----------------------------------------------------

  /** The state once m is absorbed and its tail is added as well. */
  function Mixed(m: Bytes, r: nat): StateBytes
    requires 0 < r <= 200
  {
    XorInto(Absorb(ZERO, m, r), Tail(m, r))
  }

  lemma NothingMixed(r: nat)
    requires 0 < r <= 200
    ensures Mixed([], r) == ZERO
  {
    hide XorInto, Absorb, Tail, Zeros, Rest;
    NothingAbsorbed(r);
    XorIntoNothing(ZERO);
  }

  /** One more byte changes one byte of the mixed state, which is permuted when the block is full. */
  lemma MixedMore(m: Bytes, x: Byte, r: nat)
    requires 0 < r <= 200
    ensures
      var j := Rest(|m|, r);
      var s := Mixed(m, r)[j := XorByte(Mixed(m, r)[j], x)];
      && Rest(|m + [x]|, r) == (if j + 1 < r then j + 1 else 0)
      && Mixed(m + [x], r) == (if j + 1 < r then s else F(s))
  {
    hide XorInto, Absorb, Tail, Rest, F, XorByte;
    TailLength(m, r);
    XorIntoMore(Absorb(ZERO, m, r), Tail(m, r), x);
    if Rest(|m|, r) + 1 < r {
      Fed(m, [x], r);
    } else {
      Filled(m, [x], r);
      XorIntoNothing(Absorb(ZERO, m + [x], r));
    }
  }

  lemma XorIntoNothing(b: StateBytes)
    ensures XorInto(b, []) == b
  {
  }

  lemma XorIntoMore(b: StateBytes, p: Bytes, x: Byte)
    requires |p| < 200
    ensures XorInto(b, p + [x]) == XorInto(b, p)[|p| := XorByte(XorInto(b, p)[|p|], x)]
  {
    hide XorByte;
  }

  // ---- Blocks added lane by lane -----------------------------------------------------

  /** t is s with the first n lanes of block added to it. */
  ghost predicate LanesAdded(s: State, t: State, block: Bytes, n: nat)
    requires n <= 25 && 8 * n <= |block|
  {
    forall i :: 0 <= i < 25 ==> t[i] == if i < n then Xor(s[i], LaneAt(block, i)) else s[i]
  }

  lemma LanesAddedIsXorInto(s: State, t: State, block: Bytes, n: nat)
    requires n <= 25 && |block| == 8 * n && LanesAdded(s, t, block, n)
    ensures BytesOf(t) == XorInto(BytesOf(s), block)
  {
    hide LaneAt, ByteOf, XorByte, Xor;
    forall j | 0 <= j < 200
      ensures BytesOf(t)[j] == XorInto(BytesOf(s), block)[j]
    {
      var i, k := j / 8, j % 8;
      assert j == 8 * i + k && i < 25;
      if i < n {
        XorOfLanes(s[i], LaneAt(block, i), k);
        ByteOfLaneAt(block, i, k);
      }
    }
  }

  lemma PermutedBytes(t: State)
    ensures BytesOf(Permutation(t)) == F(BytesOf(t))
  {
    hide BytesOf, LanesOf, Permutation;
    LanesOfBytesOf(t);
  }

  // ---- Digests -----------------------------------------------------------------------

  /** The padding d .. 0x80 that fills a message of n bytes to whole blocks; one byte may have to hold both. */
  function Pad(n: nat, d: Byte, r: nat): (p: Bytes)
    requires r > 0
    ensures |p| == r - Rest(n, r)
  {
    var q := r - Rest(n, r);
    if q == 1 then [d | 0x80] else [d] + Zeros(q - 2) + [0x80]
  }

  /** Sponge[f, pad, r](m) before any output. */
  function Padded(m: Bytes, d: Byte, r: nat): StateBytes
    requires 0 < r <= 200
  {
    Absorb(ZERO, m + Pad(|m|, d, r), r)
  }

  /** Padding a message permutes its tail once more with the padding behind it. */
  lemma PaddedIs(m: Bytes, d: Byte, r: nat)
    requires 0 < r <= 200
    ensures Padded(m, d, r) == F(XorInto(Absorb(ZERO, m, r), Tail(m, r) + Pad(|m|, d, r)))
  {
    hide F, XorInto, Absorb, Rest, Pad;
    Filled(m, Pad(|m|, d, r), r);
  }

  /** Adding a tail with its padding: two bytes change, or one that takes both. */
  lemma XorIntoPadding(b: StateBytes, m: Bytes, d: Byte, r: nat)
    requires 0 < r <= 200 && d < 0x80
    ensures
      var t := Tail(m, r);
      XorInto(b, t + Pad(|m|, d, r)) == WithPadding(XorInto(b, t), |t|, d, r)
  {
    hide XorByte, Rest;
    var t := Tail(m, r);
    if |t| == r - 1 {
      XorBoth(b[r - 1], d);
    } else {
      forall x: Byte ensures XorByte(x, 0) == x { XorNone(x); }
    }
  }

  function WithPadding(x: StateBytes, j: nat, d: Byte, r: nat): StateBytes
    requires j < r <= 200
  {
    var y := x[j := XorByte(x[j], d)];
    y[r - 1 := XorByte(y[r - 1], 0x80)]
  }

  /** Padding the mixed state and permuting it pads the message. */
  lemma MixedPadded(m: Bytes, d: Byte, r: nat)
    requires 0 < r <= 200 && d < 0x80
    ensures Padded(m, d, r) == F(WithPadding(Mixed(m, r), Rest(|m|, r), d, r))
  {
    hide Absorb, Tail, Rest, XorInto, F, WithPadding, Pad;
    TailLength(m, r);
    XorIntoPadding(Absorb(ZERO, m, r), m, d, r);
    PaddedIs(m, d, r);
  }

  lemma XorNone(x: Byte)
    ensures XorByte(x, 0) == x
  {
  }

  lemma XorBoth(x: Byte, d: Byte)
    requires d < 0x80
    ensures XorByte(XorByte(x, d), 0x80) == XorByte(x, d | 0x80)
  {
  }

  // ---- Squeezing ---------------------------------------------------------------------

  function Iterate(b: StateBytes, k: nat): StateBytes {
    if k == 0 then b else F(Iterate(b, k - 1))
  }

  /** Byte i of the output squeezed from b. */
  function OutputByte(b: StateBytes, r: nat, i: nat): Byte
    requires 0 < r <= 200
  {
    Iterate(b, i / r)[i % r]
  }

  /** n bytes of the output, from byte i on. */
  function Output(b: StateBytes, r: nat, i: nat, n: nat): Bytes
    requires 0 < r <= 200
  {
    seq(n, j requires 0 <= j < n => OutputByte(b, r, i + j))
  }

  /** Sponge[f, pad, r](m, n): the first n bytes squeezed from the padded message. */
  function Digest(m: Bytes, d: Byte, r: nat, n: nat): Bytes
    requires 0 < r <= 200
  {
    Output(Padded(m, d, r), r, 0, n)
  }

  /** A digest no longer than a block is the start of the state. */
  lemma DigestIsPrefix(m: Bytes, d: Byte, r: nat, n: nat)
    requires 0 < r <= 200 && n <= r
    ensures Digest(m, d, r, n) == Padded(m, d, r)[..n]
  {
    hide Padded, Output;
    FirstOutput(Padded(m, d, r), r, n);
  }

  lemma OutputConcat(b: StateBytes, r: nat, i: nat, n: nat, k: nat)
    requires 0 < r <= 200
    ensures Output(b, r, i, n) + Output(b, r, i + n, k) == Output(b, r, i, n + k)
  {
    hide OutputByte;
  }

  /** The first block of output is the state itself. */
  lemma FirstOutput(b: StateBytes, r: nat, n: nat)
    requires n <= r && 0 < r <= 200
    ensures Output(b, r, 0, n) == b[..n]
  {
    hide OutputByte;
    forall j | 0 <= j < n ensures OutputByte(b, r, 0 + j) == b[j] {
      FirstBlock(b, r);
      OutputAt(b, r, 0, b, j);
    }
  }

  /** x is the state that gives output bytes base .. base + r. */
  ghost predicate AtBlock(b: StateBytes, r: nat, base: nat, x: StateBytes)
    requires r > 0
  {
    base % r == 0 && x == Iterate(b, base / r)
  }

  lemma FirstBlock(b: StateBytes, r: nat)
    requires r > 0
    ensures AtBlock(b, r, 0, b)
  {
  }

  lemma NextBlock(b: StateBytes, r: nat, base: nat, x: StateBytes)
    requires r > 0 && AtBlock(b, r, base, x)
    ensures AtBlock(b, r, base + r, F(x))
  {
    hide F;
    var k := base / r;
    assert r * (k + 1) == r * k + r;
    Bits.DivUnique(base + r, r, k + 1, 0);
  }

  lemma OutputAt(b: StateBytes, r: nat, base: nat, x: StateBytes, j: nat)
    requires j < r <= 200 && AtBlock(b, r, base, x)
    ensures OutputByte(b, r, base + j) == x[j]
  {
    hide Iterate;
    Bits.DivUnique(base + j, r, base / r, j);
  }
}
