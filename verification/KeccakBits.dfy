/** Single bits of 64-bit words under exclusive or, and-not and rotation. */
module LaneBits {
  /** Bit z of a word. */
  function Bit(q: bv64, z: bv8): bv64
    requires z < 64
  {
    (q >> z) & 1
  }

  lemma BitValue(q: bv64, z: bv8)
    requires z < 64
    ensures Bit(q, z) == 0 || Bit(q, z) == 1
  {
  }

  ghost predicate IsXor(x: bv64, p: bv64, q: bv64) { x == p ^ q }
  ghost predicate IsAndNot(x: bv64, p: bv64, q: bv64) { x == !p & q }

  ghost predicate IsRot(r: bv64, q: bv64, n: bv8)
    requires n < 64
  {
    r == (q << n) | (q >> (64 - n))
  }

  lemma XorBit(x: bv64, p: bv64, q: bv64, z: bv8)
    requires z < 64 && IsXor(x, p, q)
    ensures Bit(x, z) == if Bit(q, z) == 1 then 1 - Bit(p, z) else Bit(p, z)
  {
  }

  lemma AndNotBit(x: bv64, p: bv64, q: bv64, z: bv8)
    requires z < 64 && IsAndNot(x, p, q)
    ensures Bit(x, z) == if Bit(p, z) == 1 then 0 else Bit(q, z)
  {
  }

  /** Rotation moves every bit up by n places, the top ones round to the bottom. */
  lemma RotBit(r: bv64, q: bv64, n: bv8, z: bv8)
    requires z < 64 && n < 64 && IsRot(r, q, n)
    ensures Bit(r, z) == if z < n then Bit(q, z + 64 - n) else Bit(q, z - n)
  {
    hide Bit, IsRot;
    if z < n {
      if n < 32 {
        Wrapped32(r, q, n, z);
      } else if n < 48 {
        Wrapped48(r, q, n, z);
      } else {
        Wrapped64(r, q, n, z);
      }
    } else if n < 16 {
      Moved16(r, q, n, z);
    } else if n < 32 {
      Moved32(r, q, n, z);
    } else {
      Moved64(r, q, n, z);
    }
  }

  lemma Moved16(r: bv64, q: bv64, n: bv8, z: bv8)
    requires n <= z < 64 && n < 16 && IsRot(r, q, n)
    ensures Bit(r, z) == Bit(q, z - n)
  {
  }

  lemma Moved32(r: bv64, q: bv64, n: bv8, z: bv8)
    requires n <= z < 64 && 16 <= n < 32 && IsRot(r, q, n)
    ensures Bit(r, z) == Bit(q, z - n)
  {
  }

  lemma Moved64(r: bv64, q: bv64, n: bv8, z: bv8)
    requires 32 <= n <= z < 64 && IsRot(r, q, n)
    ensures Bit(r, z) == Bit(q, z - n)
  {
  }

  lemma Wrapped32(r: bv64, q: bv64, n: bv8, z: bv8)
    requires z < n < 32 && IsRot(r, q, n)
    ensures Bit(r, z) == Bit(q, z + 64 - n)
  {
  }

  lemma Wrapped48(r: bv64, q: bv64, n: bv8, z: bv8)
    requires z < n && 32 <= n < 48 && IsRot(r, q, n)
    ensures Bit(r, z) == Bit(q, z + 64 - n)
  {
  }

  lemma Wrapped64(r: bv64, q: bv64, n: bv8, z: bv8)
    requires z < n && 48 <= n < 64 && IsRot(r, q, n)
    ensures Bit(r, z) == Bit(q, z + 64 - n)
  {
  }
}

/** The step mappings bit by bit, as sections 3.2.1 to 3.2.5 of FIPS 202 state them for lanes of 64 bits. */
module KeccakBits {
  import opened Keccak
  import L = LaneBits

  type Place = z: bv8 | z < 64

  /** A[x, y, z], x and y taken modulo 5. */
  ghost predicate On(s: State, x: int, y: int, z: Place) {
    L.Bit(s[x % 5 + 5 * (y % 5)], z) == 1
  }

  /** (z - n) mod 64 */
  function Back(z: Place, n: Place): Place {
    if z < n then z + 64 - n else z - n
  }

  lemma XorOn(p: Lane, q: Lane, z: Place)
    ensures L.Bit(Xor(p, q), z) == 1 <==> (L.Bit(p, z) == 1) != (L.Bit(q, z) == 1)
  {
    hide Xor, L.Bit, L.IsXor;
    XorIs(p, q);
    L.XorBit(Xor(p, q), p, q, z);
    L.BitValue(p, z);
    L.BitValue(q, z);
  }

  lemma XorIs(p: Lane, q: Lane)
    ensures L.IsXor(Xor(p, q), p, q)
  {
  }

  lemma AndNotOn(p: Lane, q: Lane, z: Place)
    ensures L.Bit(AndNot(p, q), z) == 1 <==> L.Bit(p, z) != 1 && L.Bit(q, z) == 1
  {
    hide AndNot, L.Bit, L.IsAndNot;
    AndNotIs(p, q);
    L.AndNotBit(AndNot(p, q), p, q, z);
  }

  lemma AndNotIs(p: Lane, q: Lane)
    ensures L.IsAndNot(AndNot(p, q), p, q)
  {
  }

  lemma RotOn(q: Lane, n: Place, z: Place)
    ensures L.Bit(RotL(q, n), z) == L.Bit(q, Back(z, n))
  {
    hide RotL, L.Bit, L.IsRot;
    RotIs(q, n);
    L.RotBit(RotL(q, n), q, n, z);
  }

  lemma RotIs(q: Lane, n: Place)
    ensures L.IsRot(RotL(q, n), q, n)
  {
  }

  /** C[x, z], the parity of a column. */
  ghost predicate Odd(s: State, x: int, z: Place) {
    On(s, x, 0, z) != (On(s, x, 1, z) != (On(s, x, 2, z) != (On(s, x, 3, z) != On(s, x, 4, z))))
  }

  lemma ParityOn(s: State, x: nat, z: Place)
    requires x < 5
    ensures L.Bit(Parity(s, x), z) == 1 <==> Odd(s, x, z)
  {
    hide Xor, L.Bit;
    var a := Xor(s[x], s[x + 5]);
    var b := Xor(a, s[x + 10]);
    var c := Xor(b, s[x + 15]);
    XorOn(s[x], s[x + 5], z);
    XorOn(a, s[x + 10], z);
    XorOn(b, s[x + 15], z);
    XorOn(c, s[x + 20], z);
  }

  lemma OddOfColumn(s: State, x: int, i: nat, z: Place)
    requires i == x % 5
    ensures Odd(s, x, z) <==> Odd(s, i, z)
  {
    hide L.Bit;
    assert i % 5 == i;
  }

  lemma EffectOn(s: State, x: int, z: Place)
    ensures L.Bit(ThetaEffect(s, x % 5), z) == 1 <==> Odd(s, x - 1, z) != Odd(s, x + 1, Back(z, 1))
  {
    hide Xor, RotL, Parity, L.Bit, Back, Odd;
    var left, right := (x % 5 + 4) % 5, (x % 5 + 1) % 5;
    var p, q := Parity(s, left), Parity(s, right);
    XorOn(p, RotL(q, 1), z);
    RotOn(q, 1, z);
    ParityOn(s, left, z);
    ParityOn(s, right, Back(z, 1));
    OddOfColumn(s, x - 1, left, z);
    OddOfColumn(s, x + 1, right, Back(z, 1));
  }

  /** A'[x, y, z] = A[x, y, z] + C[x - 1, z] + C[x + 1, z - 1] */
  lemma ThetaBit(s: State, x: int, y: int, z: Place)
    ensures On(Theta(s), x, y, z) <==> (On(s, x, y, z) != (Odd(s, x - 1, z) != Odd(s, x + 1, Back(z, 1))))
  {
    hide Xor, ThetaEffect, L.Bit, Back, Odd;
    var i, j := x % 5, y % 5;
    LaneNumber(i, j);
    EffectOn(s, x, z);
    XorOn(s[i + 5 * j], ThetaEffect(s, i), z);
  }

  /** A'[x, y, z] = A[x, y, z - offset] */
  lemma RhoBit(s: State, x: int, y: int, z: Place)
    ensures On(Rho(s), x, y, z) <==> On(s, x, y, Back(z, Offset(x % 5 + 5 * (y % 5))))
  {
    hide RotL, L.Bit, Back, Offset;
    RotOn(s[x % 5 + 5 * (y % 5)], Offset(x % 5 + 5 * (y % 5)), z);
  }

  /** A'[x, y, z] = A[x + 3y, x, z] */
  lemma PiBit(s: State, x: int, y: int, z: Place)
    ensures On(Pi(s), x, y, z) <==> On(s, x + 3 * y, x, z)
  {
    hide L.Bit, Source;
    SourceAt(x % 5, y % 5);
    ColumnOf(x, y);
  }

  lemma SourceAt(i: nat, j: nat)
    requires i < 5 && j < 5
    ensures Source(i + 5 * j) == (i + 3 * j) % 5 + 5 * i
  {
    LaneNumber(i, j);
  }

  lemma ColumnOf(x: int, y: int)
    ensures (x + 3 * y) % 5 == (x % 5 + 3 * (y % 5)) % 5
  {
  }

  /** A'[x, y, z] = A[x, y, z] + (A[x + 1, y, z] + 1) * A[x + 2, y, z] */
  lemma ChiBit(s: State, x: int, y: int, z: Place)
    ensures On(Chi(s), x, y, z) <==> (On(s, x, y, z) != (!On(s, x + 1, y, z) && On(s, x + 2, y, z)))
  {
    hide Xor, AndNot, L.Bit, Right;
    var i, j := x % 5, y % 5;
    var k := i + 5 * j;
    LaneNumber(i, j);
    RightOf(j, i);
    assert (x + 1) % 5 == (if i == 4 then 0 else i + 1) && (x + 2) % 5 == (if i >= 3 then i - 3 else i + 2);
    XorOn(s[k], AndNot(s[Right(k, 1)], s[Right(k, 2)]), z);
    AndNotOn(s[Right(k, 1)], s[Right(k, 2)], z);
  }

  /** A'[0, 0, z] = A[0, 0, z] + RC[z], and no other lane changes. */
  lemma IotaBit(s: State, rc: Lane, x: int, y: int, z: Place)
    ensures On(Iota(s, rc), x, y, z) <==> (On(s, x, y, z) != (x % 5 == 0 && y % 5 == 0 && L.Bit(rc, z) == 1))
  {
    hide Xor, L.Bit;
    XorOn(s[0], rc, z);
  }
}

/** The round constants, from the shift register of section 3.2.5 of FIPS 202. */
module KeccakConstants {
  import opened Keccak

  /** One step of algorithm 5: the byte is R, bit i of it R[i]. */
  function Step(r: bv8): bv8 {
    if r & 0x80 != 0 then (r << 1) ^ 0x71 else r << 1
  }

  function After(r: bv8, n: nat): bv8 {
    if n == 0 then r else Step(After(r, n - 1))
  }

  /** rc(t) */
  function Rc(t: nat): Lane {
    Low(After(1, t))
  }

  function Low(r: bv8): Lane {
    if r & 1 == 1 then 1 else 0
  }

  function Third(r: bv8): bv8 { Step(Step(Step(r))) }
  function Seventh(r: bv8): bv8 { Step(Third(Third(r))) }

  /** Seven bits at the places 2^0 - 1 .. 2^6 - 1. */
  function Placed(b0: Lane, b1: Lane, b2: Lane, b3: Lane, b4: Lane, b5: Lane, b6: Lane): Lane {
    b0 | (b1 << 1) | (b2 << 3) | (b3 << 7) | (b4 << 15) | (b5 << 31) | (b6 << 63)
  }

  /** The next seven bits of the register. */
  function Spread(r: bv8): Lane {
    Placed(Low(r), Low(Step(r)), Low(Step(Step(r))), Low(Third(r)),
           Low(Step(Third(r))), Low(Step(Step(Third(r)))), Low(Third(Third(r))))
  }

  /** The register before each round. */
  const REGISTERS: seq<bv8> := [
    0x01, 0x80, 0xd8, 0x1a, 0xdf, 0x09, 0x35, 0x4f, 0xca, 0x70, 0x41, 0xec,
    0xd5, 0xcd, 0x63, 0xab, 0xaa, 0x2a, 0xf2, 0xe8, 0x37, 0x3e, 0x0b, 0x44]

  lemma SevenOn()
    ensures Seventh(0x01) == 0x80 && Seventh(0x80) == 0xd8 && Seventh(0xd8) == 0x1a
    ensures Seventh(0x1a) == 0xdf && Seventh(0xdf) == 0x09 && Seventh(0x09) == 0x35
    ensures Seventh(0x35) == 0x4f && Seventh(0x4f) == 0xca && Seventh(0xca) == 0x70
    ensures Seventh(0x70) == 0x41 && Seventh(0x41) == 0xec && Seventh(0xec) == 0xd5
    ensures Seventh(0xd5) == 0xcd && Seventh(0xcd) == 0x63 && Seventh(0x63) == 0xab
    ensures Seventh(0xab) == 0xaa && Seventh(0xaa) == 0x2a && Seventh(0x2a) == 0xf2
    ensures Seventh(0xf2) == 0xe8 && Seventh(0xe8) == 0x37 && Seventh(0x37) == 0x3e
    ensures Seventh(0x3e) == 0x0b && Seventh(0x0b) == 0x44
  {
  }

  lemma SevenBits()
    ensures Spread(0x01) == 0x0000000000000001 && Spread(0x80) == 0x0000000000008082
    ensures Spread(0xd8) == 0x800000000000808a && Spread(0x1a) == 0x8000000080008000
    ensures Spread(0xdf) == 0x000000000000808b && Spread(0x09) == 0x0000000080000001
    ensures Spread(0x35) == 0x8000000080008081 && Spread(0x4f) == 0x8000000000008009
    ensures Spread(0xca) == 0x000000000000008a && Spread(0x70) == 0x0000000000000088
    ensures Spread(0x41) == 0x0000000080008009 && Spread(0xec) == 0x000000008000000a
    ensures Spread(0xd5) == 0x000000008000808b && Spread(0xcd) == 0x800000000000008b
    ensures Spread(0x63) == 0x8000000000008089 && Spread(0xab) == 0x8000000000008003
    ensures Spread(0xaa) == 0x8000000000008002 && Spread(0x2a) == 0x8000000000000080
    ensures Spread(0xf2) == 0x000000000000800a && Spread(0xe8) == 0x800000008000000a
    ensures Spread(0x37) == 0x8000000080008081 && Spread(0x3e) == 0x8000000000008080
    ensures Spread(0x0b) == 0x0000000080000001 && Spread(0x44) == 0x8000000080008008
  {
  }

  lemma RegisterNext(k: nat)
    requires 0 < k < 24
    ensures Seventh(REGISTERS[k - 1]) == REGISTERS[k]
  {
    hide Seventh, REGISTERS;
    if k < 12 {
      RegisterNextFirst(k);
    } else {
      RegisterNextLast(k);
    }
  }

  lemma RegisterNextFirst(k: nat)
    requires 0 < k < 12
    ensures Seventh(REGISTERS[k - 1]) == REGISTERS[k]
  {
    hide Seventh;
    SevenOn();
  }

  lemma RegisterNextLast(k: nat)
    requires 12 <= k < 24
    ensures Seventh(REGISTERS[k - 1]) == REGISTERS[k]
  {
    hide Seventh;
    SevenOn();
  }

  lemma RegisterGives(k: nat)
    requires k < 24
    ensures Spread(REGISTERS[k]) == ROUND_CONSTANTS[k]
  {
    hide Spread;
    SevenBits();
  }

  lemma {:induction false} AfterRounds(k: nat)
    requires k < 24
    ensures After(1, 7 * k) == REGISTERS[k]
  {
    hide Step, Seventh, Spread, REGISTERS;
    if k == 0 {
      FirstRegister();
    } else {
      AfterRounds(k - 1);
      NextSeven(7 * (k - 1));
      RegisterNext(k);
    }
  }

  lemma FirstRegister()
    ensures REGISTERS[0] == 1
  {
  }

  lemma NextSeven(n: nat)
    ensures
      var r := After(1, n);
      && After(1, n + 1) == Step(r) && After(1, n + 2) == Step(Step(r)) && After(1, n + 3) == Third(r)
      && After(1, n + 4) == Step(Third(r)) && After(1, n + 5) == Step(Step(Third(r)))
      && After(1, n + 6) == Third(Third(r)) && After(1, n + 7) == Seventh(r)
  {
    hide Step;
    assert After(1, n + 2) == Step(After(1, n + 1));
    assert After(1, n + 4) == Step(After(1, n + 3));
    assert After(1, n + 6) == Step(After(1, n + 5));
  }

  /** RC[2^j - 1] = rc(j + 7 * i), and every other bit is 0. */
  lemma RoundConstantBits(i: nat)
    requires i < 24
    ensures ROUND_CONSTANTS[i] ==
      Placed(Rc(7 * i), Rc(7 * i + 1), Rc(7 * i + 2), Rc(7 * i + 3), Rc(7 * i + 4), Rc(7 * i + 5), Rc(7 * i + 6))
  {
    hide Step, Third, Seventh, Low, After, Placed, REGISTERS, ROUND_CONSTANTS;
    AfterRounds(i);
    NextSeven(7 * i);
    RegisterGives(i);
  }
}

/** One round worked out on a state of 25 nonzero lanes. */
module KeccakAnswer {
  import opened Keccak
  import P = Keccak256Permutation

  const LANES: State := [1, 2, 3, 4, 5, 6, 7, 8, 9, 10, 11, 12, 13, 14, 15, 16, 17, 18, 19, 20, 21, 22, 23, 24, 25]

  lemma Columns()
    ensures Parity(LANES, 0) == 9 && Parity(LANES, 1) == 14 && Parity(LANES, 2) == 3
    ensures Parity(LANES, 3) == 8 && Parity(LANES, 4) == 13
  {
  }

  lemma Effects()
    ensures ThetaEffect(LANES, 0) == 17 && ThetaEffect(LANES, 1) == 15 && ThetaEffect(LANES, 2) == 30
    ensures ThetaEffect(LANES, 3) == 25 && ThetaEffect(LANES, 4) == 26
  {
    hide Parity;
    Columns();
  }

  /** The five lanes that end up in the first row. */
  lemma ThetaLanes(s: State, t: State)
    requires t == Theta(s)
    ensures t[0] == Xor(s[0], ThetaEffect(s, 0)) && t[6] == Xor(s[6], ThetaEffect(s, 1))
    ensures t[12] == Xor(s[12], ThetaEffect(s, 2)) && t[18] == Xor(s[18], ThetaEffect(s, 3))
    ensures t[24] == Xor(s[24], ThetaEffect(s, 4))
  {
    hide Xor, ThetaEffect;
  }

  lemma Sums()
    ensures LANES[0] == 1 && LANES[6] == 7 && LANES[12] == 13 && LANES[18] == 19 && LANES[24] == 25
    ensures Xor(1, 17) == 16 && Xor(7, 15) == 8 && Xor(13, 30) == 19 && Xor(19, 25) == 10 && Xor(25, 26) == 3
  {
  }

  lemma FirstRow(t: State, p: State)
    requires p == Pi(Rho(t))
    ensures
      && p[0] == RotL(t[0], 0) && p[1] == RotL(t[6], 44) && p[2] == RotL(t[12], 43)
      && p[3] == RotL(t[18], 21) && p[4] == RotL(t[24], 14)
  {
    hide RotL, Rho;
    FiveLanes(t);
    FiveSources(Rho(t));
  }

  lemma FiveLanes(t: State)
    ensures
      var r := Rho(t);
      && r[0] == RotL(t[0], 0) && r[6] == RotL(t[6], 44) && r[12] == RotL(t[12], 43)
      && r[18] == RotL(t[18], 21) && r[24] == RotL(t[24], 14)
  {
    hide RotL;
  }

  lemma FiveSources(r: State)
    ensures var p := Pi(r); p[0] == r[0] && p[1] == r[6] && p[2] == r[12] && p[3] == r[18] && p[4] == r[24]
  {
  }

  lemma Rotations()
    ensures RotL(16, 0) == 0x0000000000000010
    ensures RotL(8, 44) == 0x0000800000000000
    ensures RotL(19, 43) == 0x0000980000000000
    ensures RotL(10, 21) == 0x0000000001400000
    ensures RotL(3, 14) == 0x000000000000c000
  {
  }

  lemma ChiLanes()
    ensures Xor(0x0000000000000010, AndNot(0x0000800000000000, 0x0000980000000000)) == 0x0000180000000010
    ensures Xor(0x0000800000000000, AndNot(0x0000980000000000, 0x0000000001400000)) == 0x0000800001400000
    ensures Xor(0x0000980000000000, AndNot(0x0000000001400000, 0x000000000000c000)) == 0x000098000000c000
    ensures Xor(0x0000000001400000, AndNot(0x000000000000c000, 0x0000000000000010)) == 0x0000000001400010
    ensures Xor(0x000000000000c000, AndNot(0x0000000000000010, 0x0000800000000000)) == 0x000080000000c000
    ensures Xor(0x0000180000000010, 0x800000000000808a) == 0x800018000000809a
  {
  }

  lemma FirstChiRow(p: State)
    ensures
      var c := Chi(p);
      && c[0] == Xor(p[0], AndNot(p[1], p[2])) && c[1] == Xor(p[1], AndNot(p[2], p[3]))
      && c[2] == Xor(p[2], AndNot(p[3], p[4])) && c[3] == Xor(p[3], AndNot(p[4], p[0]))
      && c[4] == Xor(p[4], AndNot(p[0], p[1]))
  {
    hide ChiLane;
    ChiRow(p, 0);
  }

  /** Round 2 of keccak256.c on these lanes: the first row of what comes out. */
  method RoundOnLanes() returns (state: array<Lane>)
    ensures fresh(state) && state.Length == 25 && state[..] == Round(LANES, 2)
    ensures state[0] == 0x800018000000809a && state[1] == 0x0000800001400000 && state[2] == 0x000098000000c000
    ensures state[3] == 0x0000000001400010 && state[4] == 0x000080000000c000
  {
    hide Theta, Rho, Pi, Chi, Xor, AndNot, RotL, ThetaEffect, LANES, P.RoundConstant;
    state := new Lane[25](i requires 0 <= i < 25 => LANES[i]);
    assert state[..] == LANES;
    P.KeccakTheta(state);
    ghost var a: State := state[..];
    P.KeccakRho(state);
    P.KeccakPi(state);
    ghost var p: State := state[..];
    P.KeccakChi(state);
    ghost var c: State := state[..];
    state[0] := Xor(state[0], P.RoundConstant(2));
    P.RoundConstantsAgree(2);
    assert state[..] == Iota(c, ROUND_CONSTANTS[2]);
    Effects();
    ThetaLanes(LANES, a);
    Sums();
    FirstRow(a, p);
    Rotations();
    FirstChiRow(p);
    ChiLanes();
  }
}
