/** keccak256.c: the table-driven permutation. */
module Keccak256Permutation {
  import opened Keccak

  const ROUND_INFO: seq<bv8> := [1, 26, 94, 112, 31, 33, 121, 85, 14, 12, 53, 38, 63, 79, 93, 83, 82, 72, 22, 102, 121, 88, 33, 116]
  const PI_TRANSFORM: seq<nat> := [1, 6, 9, 22, 14, 20, 2, 12, 13, 19, 23, 15, 4, 24, 21, 8, 16, 5, 3, 18, 17, 11, 7, 10]
  const RHO_TRANSFORMS: seq<bv8> := [1, 62, 28, 27, 36, 44, 6, 55, 20, 3, 10, 43, 25, 39, 41, 45, 15, 21, 8, 18, 2, 61, 56, 14]

  /** ROTL64 of keccak256.c combines the two shifted halves with exclusive or. */
  function RotXor(q: Lane, n: bv8): Lane
    requires n < 64
  {
    (q << n) ^ (q >> (64 - n))
  }

  lemma RotXorIsRotL(q: Lane, n: bv8)
    requires 0 < n < 64
    ensures RotXor(q, n) == RotL(q, n)
  {
    HalvesDisjoint(q, n);
  }

  lemma HalvesDisjoint(q: bv64, n: bv8)
    requires 0 < n < 64
    ensures ((q << n) ^ (q >> (64 - n))) == ((q << n) | (q >> (64 - n)))
  {
  }

  function BitIf(info: bv8, flag: bv8, value: Lane): Lane {
    if info & flag != 0 then value else 0
  }

  /** get_round_constant: the seven bits that can be set, unpacked. */
  function Unpacked(info: bv8): Lane {
    BitIf(info, 0x40, 0x8000000000000000) | BitIf(info, 0x20, 0x80000000) | BitIf(info, 0x10, 0x8000)
    | BitIf(info, 0x08, 0x80) | BitIf(info, 0x04, 0x08) | BitIf(info, 0x02, 0x02) | BitIf(info, 0x01, 0x01)
  }

  function RoundConstant(round: nat): Lane
    requires round < 24
  {
    Unpacked(ROUND_INFO[round])
  }

  lemma UnpackedRounds()
    ensures Unpacked(1) == 0x0000000000000001
    ensures Unpacked(26) == 0x0000000000008082
    ensures Unpacked(94) == 0x800000000000808a
    ensures Unpacked(112) == 0x8000000080008000
    ensures Unpacked(31) == 0x000000000000808b
    ensures Unpacked(33) == 0x0000000080000001
    ensures Unpacked(121) == 0x8000000080008081
    ensures Unpacked(85) == 0x8000000000008009
    ensures Unpacked(14) == 0x000000000000008a
    ensures Unpacked(12) == 0x0000000000000088
    ensures Unpacked(53) == 0x0000000080008009
    ensures Unpacked(38) == 0x000000008000000a
    ensures Unpacked(63) == 0x000000008000808b
    ensures Unpacked(79) == 0x800000000000008b
    ensures Unpacked(93) == 0x8000000000008089
    ensures Unpacked(83) == 0x8000000000008003
    ensures Unpacked(82) == 0x8000000000008002
    ensures Unpacked(72) == 0x8000000000000080
    ensures Unpacked(22) == 0x000000000000800a
    ensures Unpacked(102) == 0x800000008000000a
    ensures Unpacked(88) == 0x8000000000008080
    ensures Unpacked(116) == 0x8000000080008008
  {
  }

  lemma RoundConstantsAgree(r: nat)
    requires r < 24
    ensures RoundConstant(r) == ROUND_CONSTANTS[r]
  {
    hide Unpacked;
    UnpackedRounds();
  }

  lemma RhoTablesAgree(i: nat)
    requires 1 <= i < 25
    ensures 0 < RHO_TRANSFORMS[i - 1] < 64 && RHO_TRANSFORMS[i - 1] == Offset(i)
  {
    assert RHO_TRANSFORMS == OFFSETS[1..];
    NoneUnmoved(i);
  }

  lemma NoneUnmoved(i: nat)
    requires 1 <= i < 25
    ensures Offset(i) > 0
  {
  }

  /** The position of lane d in the cycle of pi. */
  const CYCLE_POSITION: seq<nat> := [24, 0, 6, 18, 12, 17, 1, 22, 15, 2, 23, 21, 7, 8, 4, 11, 16, 20, 19, 9, 5, 14, 3, 10, 13]

  lemma PiCycle(k: nat)
    requires k < 24
    ensures 1 <= PI_TRANSFORM[k] < 25 && CYCLE_POSITION[PI_TRANSFORM[k]] == k
  {
  }

  lemma PiCycleBack(d: nat)
    requires 1 <= d < 25
    ensures var k := CYCLE_POSITION[d]; k < 24 && PI_TRANSFORM[k] == d && PI_TRANSFORM[(k + 1) % 24] == Source(d)
  {
    hide Source;
    PositionOf(d);
    SuccessorIsSource(CYCLE_POSITION[d]);
  }

  lemma PositionOf(d: nat)
    requires 1 <= d < 25
    ensures CYCLE_POSITION[d] < 24 && PI_TRANSFORM[CYCLE_POSITION[d]] == d
  {
  }

  lemma SuccessorIsSource(k: nat)
    requires k < 24
    ensures 1 <= PI_TRANSFORM[k] < 25 && PI_TRANSFORM[(k + 1) % 24] == Source(PI_TRANSFORM[k])
  {
    hide Source;
    if k < 8 {
      SourceEarly(k);
    } else if k < 16 {
      SourceMiddle(k);
    } else {
      SourceLate(k);
    }
  }

  lemma SourceEarly(k: nat)
    requires k < 8
    ensures 1 <= PI_TRANSFORM[k] < 25 && PI_TRANSFORM[(k + 1) % 24] == Source(PI_TRANSFORM[k])
  {
  }

  lemma SourceMiddle(k: nat)
    requires 8 <= k < 16
    ensures 1 <= PI_TRANSFORM[k] < 25 && PI_TRANSFORM[(k + 1) % 24] == Source(PI_TRANSFORM[k])
  {
  }

  lemma SourceLate(k: nat)
    requires 16 <= k < 24
    ensures 1 <= PI_TRANSFORM[k] < 25 && PI_TRANSFORM[(k + 1) % 24] == Source(PI_TRANSFORM[k])
  {
  }

  // ---- The step mappings, in place ---------------------------------------------------

  /** The first k lanes of column x combined. */
  ghost function PartialParity(s: State, x: nat, k: nat): Lane
    requires x < 5 && 1 <= k <= 5
  {
    if k == 1 then s[x] else Xor(PartialParity(s, x, k - 1), s[x + 5 * (k - 1)])
  }

  lemma FullParity(s: State, x: nat)
    requires x < 5
    ensures PartialParity(s, x, 5) == Parity(s, x)
  {
    hide Xor, PartialParity;
    PartialStart(s, x);
    PartialNext(s, x, 1);
    PartialNext(s, x, 2);
    PartialNext(s, x, 3);
    PartialNext(s, x, 4);
  }

  lemma PartialStart(s: State, x: nat)
    requires x < 5
    ensures PartialParity(s, x, 1) == s[x]
  {
  }

  lemma PartialNext(s: State, x: nat, k: nat)
    requires x < 5 && 1 <= k < 5
    ensures PartialParity(s, x, k + 1) == Xor(PartialParity(s, x, k), s[x + 5 * k])
  {
  }

  /** The column parities C of theta. */
  method ColumnParities(A: array<Lane>) returns (C: array<Lane>)
    requires A.Length == 25
    ensures fresh(C) && C.Length == 5
    ensures forall x :: 0 <= x < 5 ==> C[x] == Parity(A[..], x)
  {
    hide Xor, Parity, PartialParity;
    ghost var s: State := A[..];
    C := new Lane[5];
    for i := 0 to 5
      invariant forall x :: 0 <= x < i ==> C[x] == Parity(s, x)
    {
      C[i] := A[i];
      PartialStart(s, i);
      var j := 5;
      ghost var k := 1;
      while j < 25
        invariant 1 <= k <= 5 && j == 5 * k && C[i] == PartialParity(s, i, k)
        invariant forall x :: 0 <= x < i ==> C[x] == Parity(s, x)
      {
        PartialNext(s, i, k);
        C[i] := Xor(C[i], A[i + j]);
        j, k := j + 5, k + 1;
      }
      FullParity(s, i);
    }
  }

  method KeccakTheta(A: array<Lane>)
    requires A.Length == 25
    modifies A
    ensures A[..] == Theta(old(A[..]))
  {
    hide Xor, RotL, Parity, ThetaDone, ThetaEffect, Theta;
    ghost var s: State := A[..];
    var C := ColumnParities(A);
    var D := new Lane[5];
    for i := 0 to 5
      invariant A[..] == s
      invariant forall x :: 0 <= x < 5 ==> C[x] == Parity(s, x)
      invariant forall x :: 0 <= x < i ==> D[x] == ThetaEffect(s, x)
    {
      EffectIs(s, i);
      D[i] := Xor(RotXor(C[(i + 1) % 5], 1), C[(i + 4) % 5]);
    }
    ThetaStart(s);
    for i := 0 to 5
      invariant forall x :: 0 <= x < 5 ==> D[x] == ThetaEffect(s, x)
      invariant ThetaDone(s, A[..], i, 0)
    {
      var j := 0;
      ghost var k := 0;
      while j < 25
        invariant forall x :: 0 <= x < 5 ==> D[x] == ThetaEffect(s, x)
        invariant 0 <= k <= 5 && j == 5 * k && ThetaDone(s, A[..], i, k)
      {
        ThetaStep(s, A[..], i, k, i + j);
        ghost var a := A[..];
        A[i + j] := Xor(A[i + j], D[i]);
        assert A[..] == a[i + j := Xor(s[i + j], ThetaEffect(s, i))];
        j, k := j + 5, k + 1;
      }
      ThetaColumn(s, A[..], i);
    }
    ThetaAll(s, A[..]);
  }

  lemma EffectIs(s: State, x: nat)
    requires x < 5
    ensures ThetaEffect(s, x) == Xor(RotXor(Parity(s, (x + 1) % 5), 1), Parity(s, (x + 4) % 5))
  {
    hide Parity;
    RotXorIsRotL(Parity(s, (x + 1) % 5), 1);
  }

  lemma ThetaStart(s: State)
    ensures ThetaDone(s, s, 0, 0)
  {
  }

  method KeccakRho(A: array<Lane>)
    requires A.Length == 25
    modifies A
    ensures A[..] == Rho(old(A[..]))
  {
    hide RotL, RotXor, Offset;
    ghost var s: State := A[..];
    RhoFirst(s);
    for i := 1 to 25
      invariant forall l :: 0 <= l < i ==> A[l] == RotL(s[l], Offset(l))
      invariant forall l :: i <= l < 25 ==> A[l] == s[l]
    {
      RhoTablesAgree(i);
      RotXorIsRotL(A[i], RHO_TRANSFORMS[i - 1]);
      A[i] := RotXor(A[i], RHO_TRANSFORMS[i - 1]);
    }
    assert A[..] == Rho(s);
  }

  lemma RhoFirst(s: State)
    ensures RotL(s[0], Offset(0)) == s[0]
  {
    RotateByNone(s[0]);
  }

  /** The k-th lane of the cycle has received the next. */
  ghost predicate Moved(s: State, a: State, k: nat)
    requires k < 23
  {
    PiCycle(k);
    PiCycle(k + 1);
    a[PI_TRANSFORM[k]] == s[PI_TRANSFORM[k + 1]]
  }

  /** The loop of keccak_pi before its turn i: the lanes behind have moved, the others have not. */
  ghost predicate PiDone(s: State, a: State, i: nat)
    requires 1 <= i <= 24
  {
    && a[0] == s[0]
    && (forall k :: 0 <= k < i - 1 ==> Moved(s, a, k))
    && (forall k :: i - 1 <= k < 24 ==> Kept(s, a, k))
  }

  ghost predicate Kept(s: State, a: State, k: nat)
    requires k < 24
  {
    PiCycle(k);
    a[PI_TRANSFORM[k]] == s[PI_TRANSFORM[k]]
  }

  lemma PiStep(s: State, a: State, i: nat)
    requires 1 <= i < 24 && PiDone(s, a, i)
    ensures 1 <= PI_TRANSFORM[i - 1] < 25 && 1 <= PI_TRANSFORM[i] < 25
    ensures PiDone(s, a[PI_TRANSFORM[i - 1] := a[PI_TRANSFORM[i]]], i + 1)
  {
    PiCycle(i - 1);
    PiCycle(i);
    assert Kept(s, a, i);
    var a' := a[PI_TRANSFORM[i - 1] := a[PI_TRANSFORM[i]]];
    forall k | 0 <= k < i ensures Moved(s, a', k) {
      PiCycle(k);
      assert k < i - 1 ==> Moved(s, a, k);
    }
    forall k | i <= k < 24 ensures Kept(s, a', k) {
      PiCycle(k);
      assert Kept(s, a, k);
    }
  }

  method KeccakPi(A: array<Lane>)
    requires A.Length == 25
    modifies A
    ensures A[..] == Pi(old(A[..]))
  {
    hide Source, PiDone;
    ghost var s: State := A[..];
    PiStart(s);
    var A1 := A[1];
    for i := 1 to 24
      invariant PiDone(s, A[..], i)
    {
      ghost var a := A[..];
      PiStep(s, a, i);
      A[PI_TRANSFORM[i - 1]] := A[PI_TRANSFORM[i]];
      assert A[..] == a[PI_TRANSFORM[i - 1] := a[PI_TRANSFORM[i]]];
    }
    ghost var a := A[..];
    A[10] := A1;
    assert A[..] == a[10 := s[1]];
    PiResult(s, a);
  }

  lemma PiStart(s: State)
    ensures PiDone(s, s, 1)
  {
    forall k | 0 <= k < 24 ensures Kept(s, s, k) {
      PiCycle(k);
    }
  }

  /** When the cycle closes, lane d holds the lane that pi takes there. */
  lemma PiResult(s: State, a: State)
    requires PiDone(s, a, 24)
    ensures a[10 := s[1]] == Pi(s)
  {
    hide Source, Moved;
    var a' := a[10 := s[1]];
    forall d | 0 <= d < 25 ensures a'[d] == s[Source(d)] {
      if d == 0 {
        SourceOfFirst();
      } else {
        PiLane(s, a, d);
      }
    }
  }

  lemma SourceOfFirst()
    ensures Source(0) == 0
  {
  }

  lemma PiLane(s: State, a: State, d: nat)
    requires PiDone(s, a, 24) && 1 <= d < 25
    ensures a[10 := s[1]][d] == s[Source(d)]
  {
    hide Source;
    PiCycleBack(d);
    var k := CYCLE_POSITION[d];
    if k < 23 {
      assert Moved(s, a, k);
      assert PI_TRANSFORM[23] == 10;
      PiCycle(23);
    }
  }

  method KeccakChi(A: array<Lane>)
    requires A.Length == 25
    modifies A
    ensures A[..] == Chi(old(A[..]))
  {
    hide Xor, AndNot, ChiDone, Chi, ChiLane;
    ghost var s: State := A[..];
    var i := 0;
    ghost var r := 0;
    ChiNone(s);
    while i < 25
      invariant 0 <= r <= 5 && i == 5 * r && ChiDone(s, A[..], r)
    {
      ghost var a: State := A[..];
      ChiInRow(A, i);
      RowAfterChi(s, a, A[..], i, r);
      i, r := i + 5, r + 1;
    }
    ChiAll(s, A[..]);
  }

  /** The body of that loop: the row from lane i on. */
  method ChiInRow(A: array<Lane>, i: nat)
    requires A.Length == 25 && i + 5 <= 25
    modifies A
    ensures RowChanged(old(A[..]), A[..], i)
  {
    hide Xor, AndNot, Chi, ChiLane, Right;
    var A0, A1 := A[0 + i], A[1 + i];
    A[0 + i] := Xor(A[0 + i], AndNot(A1, A[2 + i]));
    A[1 + i] := Xor(A[1 + i], AndNot(A[2 + i], A[3 + i]));
    A[2 + i] := Xor(A[2 + i], AndNot(A[3 + i], A[4 + i]));
    A[3 + i] := Xor(A[3 + i], AndNot(A[4 + i], A0));
    A[4 + i] := Xor(A[4 + i], AndNot(A0, A1));
    assert forall l :: 0 <= l < 25 && !(i <= l < i + 5) ==> A[l] == old(A[l]);
  }

  ghost predicate RowChanged(a: State, a': State, i: nat)
    requires i + 5 <= 25
  {
    && (forall l :: 0 <= l < 25 && !(i <= l < i + 5) ==> a'[l] == a[l])
    && a'[i] == Xor(a[i], AndNot(a[i + 1], a[i + 2]))
    && a'[i + 1] == Xor(a[i + 1], AndNot(a[i + 2], a[i + 3]))
    && a'[i + 2] == Xor(a[i + 2], AndNot(a[i + 3], a[i + 4]))
    && a'[i + 3] == Xor(a[i + 3], AndNot(a[i + 4], a[i]))
    && a'[i + 4] == Xor(a[i + 4], AndNot(a[i], a[i + 1]))
  }

  lemma RowAfterChi(s: State, a: State, a': State, i: nat, r: nat)
    requires r < 5 && i == 5 * r && ChiDone(s, a, r) && RowChanged(a, a', i)
    ensures ChiDone(s, a', r + 1)
  {
    hide Xor, AndNot, ChiLane, ChiDone;
    ChiRow(s, r);
    RowUntouched(s, a, r);
    ChiStep(s, a, a', r);
  }

  lemma RowUntouched(s: State, a: State, r: nat)
    requires r < 5 && ChiDone(s, a, r)
    ensures a[5 * r] == s[5 * r] && a[5 * r + 1] == s[5 * r + 1] && a[5 * r + 2] == s[5 * r + 2]
    ensures a[5 * r + 3] == s[5 * r + 3] && a[5 * r + 4] == s[5 * r + 4]
  {
  }

  method Sha3Permutation(state: array<Lane>)
    requires state.Length == 25
    modifies state
    ensures state[..] == Permutation(old(state[..]))
  {
    hide Theta, Rho, Pi, Chi, Xor, RoundConstant;
    ghost var s: State := state[..];
    for round := 0 to 24
      invariant state[..] == Rounds(s, round)
    {
      KeccakTheta(state);
      KeccakRho(state);
      KeccakPi(state);
      KeccakChi(state);
      RoundConstantsAgree(round);
      ghost var a := state[..];
      state[0] := Xor(state[0], RoundConstant(round));
      assert state[..] == Iota(a, ROUND_CONSTANTS[round]);
    }
  }
}
