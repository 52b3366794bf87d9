/** Lanes as little-endian groups of eight bytes. */
module LaneBytes {
  import opened Keccak

  type Byte = bv8

  /** Eight bytes as a lane, least significant first. */
  function LaneOf(b0: Byte, b1: Byte, b2: Byte, b3: Byte, b4: Byte, b5: Byte, b6: Byte, b7: Byte): Lane {
    (b0 as bv64) | ((b1 as bv64) << 8) | ((b2 as bv64) << 16) | ((b3 as bv64) << 24)
    | ((b4 as bv64) << 32) | ((b5 as bv64) << 40) | ((b6 as bv64) << 48) | ((b7 as bv64) << 56)
  }

  /** The first byte is the least significant. */
  lemma LittleEndian()
    ensures LaneOf(1, 2, 3, 4, 5, 6, 7, 8) == 0x0807060504030201
  {
  }

  function LowByte(q: Lane): Byte {
    (q & 0xFF) as bv8
  }

  function Next(q: Lane): Lane {
    q >> 8
  }

  /** Byte k of a lane, counted from the least significant. */
  function ByteOf(q: Lane, k: nat): Byte {
    if k == 0 then LowByte(q) else ByteOf(Next(q), k - 1)
  }

  function XorByte(a: Byte, b: Byte): Byte { a ^ b }

  lemma {:induction false} ByteOfLane(b: seq<Byte>, k: nat)
    requires |b| == 8 && k < 8
    ensures ByteOf(LaneOf(b[0], b[1], b[2], b[3], b[4], b[5], b[6], b[7]), k) == b[k]
    decreases k
  {
    hide LaneOf, LowByte, Next;
    NextOfLane(b[0], b[1], b[2], b[3], b[4], b[5], b[6], b[7]);
    if k > 0 {
      var c := b[1..] + [0];
      ByteOfLane(c, k - 1);
    }
  }

  lemma NextOfLane(b0: Byte, b1: Byte, b2: Byte, b3: Byte, b4: Byte, b5: Byte, b6: Byte, b7: Byte)
    ensures Next(LaneOf(b0, b1, b2, b3, b4, b5, b6, b7)) == LaneOf(b1, b2, b3, b4, b5, b6, b7, 0)
    ensures LowByte(LaneOf(b0, b1, b2, b3, b4, b5, b6, b7)) == b0
  {
  }

  lemma LaneOfBytes(q: Lane)
    ensures LaneOf(ByteOf(q, 0), ByteOf(q, 1), ByteOf(q, 2), ByteOf(q, 3),
                   ByteOf(q, 4), ByteOf(q, 5), ByteOf(q, 6), ByteOf(q, 7)) == q
  {
    hide LaneOf, LowByte, Next;
    Rebuilt(q);
    var q2 := Next(Next(q));
    var q4 := Next(Next(q2));
    var q6 := Next(Next(q4));
    TwoOn(q, 0);
    TwoOn(q, 2);
    TwoOn(q2, 0);
    TwoOn(q, 4);
    TwoOn(q2, 2);
    TwoOn(q4, 0);
    assert ByteOf(q, 0) == LowByte(q) && ByteOf(q, 1) == LowByte(Next(q));
    TwoOn(q, 1);
    TwoOn(q, 3);
    TwoOn(q2, 1);
    TwoOn(q, 5);
    TwoOn(q2, 3);
    TwoOn(q4, 1);
    assert ByteOf(q6, 1) == LowByte(Next(q6));
  }

  lemma TwoOn(q: Lane, k: nat)
    ensures ByteOf(q, k + 2) == ByteOf(Next(Next(q)), k)
  {
  }

  lemma Rebuilt(q: Lane)
    ensures
      var q2 := Next(Next(q));
      var q4 := Next(Next(q2));
      var q6 := Next(Next(q4));
      LaneOf(LowByte(q), LowByte(Next(q)), LowByte(q2), LowByte(Next(q2)),
             LowByte(q4), LowByte(Next(q4)), LowByte(q6), LowByte(Next(q6))) == q
  {
  }

  ghost predicate IsXor(p: Lane, q: Lane, x: Lane) {
    x == p ^ q
  }

  /** The bytes of a sum of lanes are the sums of their bytes. */
  lemma XorOfLanes(p: Lane, q: Lane, k: nat)
    ensures ByteOf(Xor(p, q), k) == XorByte(ByteOf(p, k), ByteOf(q, k))
  {
    hide ByteOf, XorByte, IsXor;
    XorOfBytes(p, q, Xor(p, q), k) by {
      XorIs(p, q);
    }
  }

  lemma XorIs(p: Lane, q: Lane)
    ensures IsXor(p, q, Xor(p, q))
  {
  }

  lemma {:induction false} XorOfBytes(p: Lane, q: Lane, x: Lane, k: nat)
    requires IsXor(p, q, x)
    ensures ByteOf(x, k) == XorByte(ByteOf(p, k), ByteOf(q, k))
    decreases k
  {
    hide LowByte, Next, XorByte, IsXor;
    if k == 0 {
      XorLow(p, q, x);
    } else {
      XorNext(p, q, x);
      XorOfBytes(Next(p), Next(q), Next(x), k - 1);
    }
  }

  lemma XorLow(p: Lane, q: Lane, x: Lane)
    requires IsXor(p, q, x)
    ensures LowByte(x) == XorByte(LowByte(p), LowByte(q))
  {
  }

  lemma XorNext(p: Lane, q: Lane, x: Lane)
    requires IsXor(p, q, x)
    ensures IsXor(Next(p), Next(q), Next(x))
  {
  }
}
