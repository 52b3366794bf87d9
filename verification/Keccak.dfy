/** The step mappings of Keccak-p[1600, 24], section 3.2 of FIPS 202, on 25 lanes numbered x + 5 * y. */
module Keccak {
  type Lane = bv64
  type State = s: seq<Lane> | |s| == 25 witness seq(25, _ => 0)

  function Xor(a: Lane, b: Lane): Lane { a ^ b }
  function AndNot(a: Lane, b: Lane): Lane { !a & b }

  /** Rotation to the left by n, 0 <= n < 64. */
  function RotL(q: Lane, n: bv8): Lane
    requires n < 64
  {
    (q << n) | (q >> (64 - n))
  }

  lemma RotateByNone(q: Lane)
    ensures RotL(q, 0) == q
  {
  }

  /** The column parity of section 3.2.1. */
  function Parity(s: State, x: nat): Lane
    requires x < 5
  {
    Xor(Xor(Xor(Xor(s[x], s[x + 5]), s[x + 10]), s[x + 15]), s[x + 20])
  }

  function ThetaEffect(s: State, x: nat): Lane
    requires x < 5
  {
    Xor(Parity(s, (x + 4) % 5), RotL(Parity(s, (x + 1) % 5), 1))
  }

  function Theta(s: State): (t: State) {
    seq(25, i requires 0 <= i < 25 => Xor(s[i], ThetaEffect(s, i % 5)))
  }

  /** The offsets of rho, table 2 of FIPS 202 modulo 64, by lane. */
  const OFFSETS: seq<bv8> := [
     0,  1, 62, 28, 27,
    36, 44,  6, 55, 20,
     3, 10, 43, 25, 39,
    41, 45, 15, 21,  8,
    18,  2, 61, 56, 14]

  function Offset(i: nat): (n: bv8)
    requires i < 25
    ensures n < 64
  {
    OFFSETS[i]
  }

  function Rho(s: State): (t: State) {
    seq(25, i requires 0 <= i < 25 => RotL(s[i], Offset(i)))
  }

  /** The lane that pi moves to lane d: A'[x, y] = A[(x + 3y) mod 5, x]. */
  function Source(d: nat): (i: nat)
    requires d < 25
    ensures i < 25
  {
    var x, y := d % 5, d / 5;
    (x + 3 * y) % 5 + 5 * x
  }

  function Pi(s: State): (t: State) {
    seq(25, d requires 0 <= d < 25 => s[Source(d)])
  }

  /** Lane x + k of lane i's row, cyclically. */
  function Right(i: nat, k: nat): (j: nat)
    requires i < 25
    ensures j < 25
  {
    i / 5 * 5 + (i + k) % 5
  }

  function ChiLane(s: State, i: nat): Lane
    requires i < 25
  {
    Xor(s[i], AndNot(s[Right(i, 1)], s[Right(i, 2)]))
  }

  function Chi(s: State): (t: State) {
    seq(25, i requires 0 <= i < 25 => ChiLane(s, i))
  }

  function Iota(s: State, rc: Lane): (t: State) {
    s[0 := Xor(s[0], rc)]
  }

  const ROUND_CONSTANTS: seq<Lane> := [
    0x0000000000000001, 0x0000000000008082, 0x800000000000808a,
    0x8000000080008000, 0x000000000000808b, 0x0000000080000001,
    0x8000000080008081, 0x8000000000008009, 0x000000000000008a,
    0x0000000000000088, 0x0000000080008009, 0x000000008000000a,
    0x000000008000808b, 0x800000000000008b, 0x8000000000008089,
    0x8000000000008003, 0x8000000000008002, 0x8000000000000080,
    0x000000000000800a, 0x800000008000000a, 0x8000000080008081,
    0x8000000000008080, 0x0000000080000001, 0x8000000080008008]

  function Round(s: State, r: nat): (t: State)
    requires r < 24
  {
    Iota(Chi(Pi(Rho(Theta(s)))), ROUND_CONSTANTS[r])
  }

  /** The first n rounds. */
  function Rounds(s: State, n: nat): (t: State)
    requires n <= 24
  {
    if n == 0 then s else Round(Rounds(s, n - 1), n - 1)
  }

  function Permutation(s: State): (t: State) {
    Rounds(s, 24)
  }

  // ---- Progress of in-place loops ----------------------------------------------------

  /** Theta applied to the columns below i and to the first k lanes of column i. */
  ghost predicate ThetaDone(s: State, a: State, i: nat, k: nat) {
    forall l :: 0 <= l < 25 ==>
      a[l] == if l % 5 < i || (l % 5 == i && l / 5 < k) then Xor(s[l], ThetaEffect(s, l % 5)) else s[l]
  }

  lemma ThetaStep(s: State, a: State, i: nat, k: nat, j: nat)
    requires i < 5 && k < 5 && j == i + 5 * k && ThetaDone(s, a, i, k)
    ensures j < 25 && a[j] == s[j]
    ensures ThetaDone(s, a[j := Xor(s[j], ThetaEffect(s, i))], i, k + 1)
  {
    hide Xor, ThetaEffect;
    LaneNumber(i, k);
    var a' := a[j := Xor(s[j], ThetaEffect(s, i))];
    forall l | 0 <= l < 25
      ensures a'[l] == if l % 5 < i || (l % 5 == i && l / 5 < k + 1) then Xor(s[l], ThetaEffect(s, l % 5)) else s[l]
    {
      if l % 5 == i && l / 5 == k {
        assert l == j;
      }
    }
  }

  lemma LaneNumber(x: nat, y: nat)
    requires x < 5 && y < 5
    ensures (x + 5 * y) % 5 == x && (x + 5 * y) / 5 == y
  {
  }

  lemma ThetaColumn(s: State, a: State, i: nat)
    requires i < 5 && ThetaDone(s, a, i, 5)
    ensures ThetaDone(s, a, i + 1, 0)
  {
  }

  lemma ThetaAll(s: State, a: State)
    requires ThetaDone(s, a, 5, 0)
    ensures a == Theta(s)
  {
  }

  /** Chi applied to the first r rows. */
  ghost predicate ChiDone(s: State, a: State, r: nat) {
    forall l :: 0 <= l < 25 ==> a[l] == if l / 5 < r then ChiLane(s, l) else s[l]
  }

  lemma ChiNone(s: State)
    ensures ChiDone(s, s, 0)
  {
  }

  lemma ChiStep(s: State, a: State, a': State, r: nat)
    requires r < 5 && ChiDone(s, a, r)
    requires forall l :: 0 <= l < 25 && !(5 * r <= l < 5 * r + 5) ==> a'[l] == a[l]
    requires a'[5 * r] == ChiLane(s, 5 * r) && a'[5 * r + 1] == ChiLane(s, 5 * r + 1)
    requires a'[5 * r + 2] == ChiLane(s, 5 * r + 2) && a'[5 * r + 3] == ChiLane(s, 5 * r + 3)
    requires a'[5 * r + 4] == ChiLane(s, 5 * r + 4)
    ensures ChiDone(s, a', r + 1)
  {
    hide ChiLane;
    forall l | 0 <= l < 25 ensures a'[l] == if l / 5 < r + 1 then ChiLane(s, l) else s[l] {
      if l / 5 == r {
        assert l == 5 * r || l == 5 * r + 1 || l == 5 * r + 2 || l == 5 * r + 3 || l == 5 * r + 4;
      } else {
        assert !(5 * r <= l < 5 * r + 5);
      }
    }
  }

  /** The five lanes of row r after chi. */
  lemma ChiRow(s: State, r: nat)
    requires r < 5
    ensures ChiLane(s, 5 * r) == Xor(s[5 * r], AndNot(s[5 * r + 1], s[5 * r + 2]))
    ensures ChiLane(s, 5 * r + 1) == Xor(s[5 * r + 1], AndNot(s[5 * r + 2], s[5 * r + 3]))
    ensures ChiLane(s, 5 * r + 2) == Xor(s[5 * r + 2], AndNot(s[5 * r + 3], s[5 * r + 4]))
    ensures ChiLane(s, 5 * r + 3) == Xor(s[5 * r + 3], AndNot(s[5 * r + 4], s[5 * r]))
    ensures ChiLane(s, 5 * r + 4) == Xor(s[5 * r + 4], AndNot(s[5 * r], s[5 * r + 1]))
  {
    hide Xor, AndNot, Right;
    RightOf(r, 0);
    RightOf(r, 1);
    RightOf(r, 2);
    RightOf(r, 3);
    RightOf(r, 4);
  }

  lemma RightOf(r: nat, x: nat)
    requires r < 5 && x < 5
    ensures Right(5 * r + x, 1) == 5 * r + (if x == 4 then 0 else x + 1)
    ensures Right(5 * r + x, 2) == 5 * r + (if x >= 3 then x - 3 else x + 2)
  {
    LaneNumber(x, r);
    PlaceInRow(r, x + 1);
    PlaceInRow(r, x + 2);
  }

  lemma PlaceInRow(r: nat, k: nat)
    requires r < 5 && k < 10
    ensures (5 * r + k) % 5 == if k < 5 then k else k - 5
  {
  }

  lemma ChiAll(s: State, a: State)
    requires ChiDone(s, a, 5)
    ensures a == Chi(s)
  {
  }
}
