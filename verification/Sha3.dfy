/** sha3.c: the permutation with rho and pi fused into one walk along the cycle of pi. */
module Sha3Permutation {
  import opened Keccak

  const ROTC: seq<bv8> := [1, 3, 6, 10, 15, 21, 28, 36, 45, 55, 2, 14, 27, 41, 56, 8, 25, 43, 62, 18, 39, 61, 20, 44]
  const PILN: seq<nat> := [10, 7, 11, 17, 18, 3, 5, 16, 8, 21, 24, 4, 15, 23, 19, 13, 12, 2, 20, 14, 22, 9, 6, 1]

  /** The position of lane d in the walk. */
  const POSITION: seq<nat> := [24, 23, 17, 5, 11, 6, 22, 1, 8, 21, 0, 2, 16, 15, 19, 12, 7, 3, 4, 14, 18, 9, 20, 13, 10]

  lemma WalkStep(i: nat)
    requires i < 24
    ensures 1 <= PILN[i] < 25 && POSITION[PILN[i]] == i && 0 < ROTC[i] < 64
  {
  }

  lemma WalkBack(d: nat)
    requires 1 <= d < 25
    ensures POSITION[d] < 24 && PILN[POSITION[d]] == d
  {
  }

  /** The lane read before turn i: the one written in the turn before, at first lane 1. */
  function Before(i: nat): (l: nat)
    requires i < 24
    ensures 1 <= l < 25
  {
    if i == 0 then 1 else
      WalkStep(i - 1);
      PILN[i - 1]
  }

  /** The walk's tables are those of rho and pi: turn i moves lane Before(i) to PILN[i], rotated by its offset. */
  lemma TablesAgree(i: nat)
    requires i < 24
    ensures 1 <= PILN[i] < 25 && Source(PILN[i]) == Before(i) && Offset(Before(i)) == ROTC[i]
  {
    WalkStep(i);
    SourcesAgree(i);
    if i > 0 {
      WalkStep(i - 1);
      OffsetsAgree(i);
    }
  }

  lemma SourcesAgree(i: nat)
    requires i < 24
    ensures Source(PILN[i]) == Before(i)
  {
  }

  lemma OffsetsAgree(i: nat)
    requires 0 < i < 24
    ensures Offset(PILN[i - 1]) == ROTC[i]
  {
    if i <= 8 {
      OffsetsEarly(i);
    } else if i <= 16 {
      OffsetsMiddle(i);
    } else {
      OffsetsLate(i);
    }
  }

  lemma OffsetsEarly(i: nat)
    requires 0 < i <= 8
    ensures Offset(PILN[i - 1]) == ROTC[i]
  {
  }

  lemma OffsetsMiddle(i: nat)
    requires 8 < i <= 16
    ensures Offset(PILN[i - 1]) == ROTC[i]
  {
  }

  lemma OffsetsLate(i: nat)
    requires 16 < i < 24
    ensures Offset(PILN[i - 1]) == ROTC[i]
  {
  }

  // ---- The walk ----------------------------------------------------------------------

  ghost predicate Turned(s: State, a: State, k: nat)
    requires k < 24
  {
    WalkStep(k);
    a[PILN[k]] == RotL(s[Before(k)], ROTC[k])
  }

  ghost predicate Kept(s: State, a: State, k: nat)
    requires k < 24
  {
    WalkStep(k);
    a[PILN[k]] == s[PILN[k]]
  }

  ghost predicate WalkDone(s: State, a: State, i: nat)
    requires i <= 24
  {
    && a[0] == s[0]
    && (forall k :: 0 <= k < i ==> Turned(s, a, k))
    && (forall k :: i <= k < 24 ==> Kept(s, a, k))
  }

  lemma WalkStart(s: State)
    ensures WalkDone(s, s, 0)
  {
    forall k | 0 <= k < 24 ensures Kept(s, s, k) {
      WalkStep(k);
    }
  }

  lemma WalkTurn(s: State, a: State, i: nat, t: Lane)
    requires i < 24 && WalkDone(s, a, i) && t == s[Before(i)]
    ensures 1 <= PILN[i] < 25 && 0 < ROTC[i] < 64
    ensures a[PILN[i]] == s[PILN[i]]
    ensures WalkDone(s, a[PILN[i] := RotL(t, ROTC[i])], i + 1)
  {
    hide RotL;
    WalkStep(i);
    assert Kept(s, a, i);
    var a' := a[PILN[i] := RotL(t, ROTC[i])];
    forall k | 0 <= k < i + 1 ensures Turned(s, a', k) {
      WalkStep(k);
      assert k < i ==> Turned(s, a, k);
    }
    forall k | i + 1 <= k < 24 ensures Kept(s, a', k) {
      WalkStep(k);
      assert Kept(s, a, k);
    }
  }

  lemma WalkResult(s: State, a: State)
    requires WalkDone(s, a, 24)
    ensures a == Pi(Rho(s))
  {
    hide Source, Offset, RotL, WalkDone;
    forall d | 0 <= d < 25 ensures a[d] == RotL(s[Source(d)], Offset(Source(d))) {
      if d == 0 {
        WalkFirst(s, a);
      } else {
        WalkLane(s, a, d);
      }
    }
  }

  lemma WalkFirst(s: State, a: State)
    requires WalkDone(s, a, 24)
    ensures Source(0) == 0 && RotL(s[0], Offset(0)) == a[0]
  {
    RotateByNone(s[0]);
  }

  lemma WalkLane(s: State, a: State, d: nat)
    requires WalkDone(s, a, 24) && 1 <= d < 25
    ensures a[d] == RotL(s[Source(d)], Offset(Source(d)))
  {
    hide Source, Offset, RotL;
    WalkBack(d);
    TablesAgree(POSITION[d]);
    assert Turned(s, a, POSITION[d]);
  }

  method RhoPi(st: array<Lane>)
    requires st.Length == 25
    modifies st
    ensures st[..] == Pi(Rho(old(st[..])))
  {
    hide RotL, WalkDone, Source, Offset;
    ghost var s: State := st[..];
    WalkStart(s);
    var t := st[1];
    for i := 0 to 24
      invariant WalkDone(s, st[..], i)
      invariant i < 24 ==> t == s[Before(i)]
    {
      ghost var a := st[..];
      WalkTurn(s, a, i, t);
      var j := PILN[i];
      var bc0 := st[j];
      st[j] := RotL(t, ROTC[i]);
      assert st[..] == a[PILN[i] := RotL(t, ROTC[i])];
      t := bc0;
    }
    WalkResult(s, st[..]);
  }

  // ---- The other step mappings -------------------------------------------------------

  method ThetaInPlace(st: array<Lane>)
    requires st.Length == 25
    modifies st
    ensures st[..] == Theta(old(st[..]))
  {
    hide Xor, RotL, Parity, ThetaDone, ThetaEffect, Theta;
    ghost var s: State := st[..];
    var bc := new Lane[5];
    for i := 0 to 5
      invariant st[..] == s
      invariant forall x :: 0 <= x < i ==> bc[x] == Parity(s, x)
    {
      ParityIs(s, i);
      bc[i] := Xor(Xor(Xor(Xor(st[i], st[i + 5]), st[i + 10]), st[i + 15]), st[i + 20]);
    }
    ThetaNone(s);
    for i := 0 to 5
      invariant forall x :: 0 <= x < 5 ==> bc[x] == Parity(s, x)
      invariant ThetaDone(s, st[..], i, 0)
    {
      EffectIs(s, i);
      var t := Xor(bc[(i + 4) % 5], RotL(bc[(i + 1) % 5], 1));
      var j := 0;
      ghost var k := 0;
      while j < 25
        invariant forall x :: 0 <= x < 5 ==> bc[x] == Parity(s, x)
        invariant 0 <= k <= 5 && j == 5 * k && ThetaDone(s, st[..], i, k)
      {
        ThetaStep(s, st[..], i, k, j + i);
        ghost var a := st[..];
        st[j + i] := Xor(st[j + i], t);
        assert st[..] == a[j + i := Xor(s[j + i], ThetaEffect(s, i))];
        j, k := j + 5, k + 1;
      }
      ThetaColumn(s, st[..], i);
    }
    ThetaAll(s, st[..]);
  }

  lemma ParityIs(s: State, x: nat)
    requires x < 5
    ensures Parity(s, x) == Xor(Xor(Xor(Xor(s[x], s[x + 5]), s[x + 10]), s[x + 15]), s[x + 20])
  {
  }

  lemma EffectIs(s: State, x: nat)
    requires x < 5
    ensures ThetaEffect(s, x) == Xor(Parity(s, (x + 4) % 5), RotL(Parity(s, (x + 1) % 5), 1))
  {
  }

  lemma ThetaNone(s: State)
    ensures ThetaDone(s, s, 0, 0)
  {
  }

  /** Chi applied to the rows before r and to the first i lanes of row r. */
  ghost predicate RowDone(s: State, a: State, r: nat, i: nat) {
    forall l :: 0 <= l < 25 ==> a[l] == if l / 5 < r || (l / 5 == r && l % 5 < i) then ChiLane(s, l) else s[l]
  }

  lemma RowStep(s: State, a: State, r: nat, i: nat)
    requires r < 5 && i < 5 && RowDone(s, a, r, i)
    ensures a[5 * r + i] == s[5 * r + i]
    ensures RowDone(s, a[5 * r + i := Xor(s[5 * r + i], AndNot(s[5 * r + (i + 1) % 5], s[5 * r + (i + 2) % 5]))], r, i + 1)
  {
    hide Xor, AndNot;
    LaneNumber(i, r);
    ChiLaneIs(s, r, i);
    LanesApart(s, a, r, i, ChiLane(s, 5 * r + i));
  }

  lemma LanesApart(s: State, a: State, r: nat, i: nat, v: Lane)
    requires r < 5 && i < 5 && RowDone(s, a, r, i) && v == ChiLane(s, 5 * r + i)
    ensures RowDone(s, a[5 * r + i := v], r, i + 1)
  {
    hide ChiLane;
    var a' := a[5 * r + i := v];
    forall l | 0 <= l < 25
      ensures a'[l] == if l / 5 < r || (l / 5 == r && l % 5 < i + 1) then ChiLane(s, l) else s[l]
    {
      if l / 5 == r && l % 5 == i {
        assert l == 5 * r + i;
      }
    }
  }

  lemma ChiLaneIs(s: State, r: nat, i: nat)
    requires r < 5 && i < 5
    ensures ChiLane(s, 5 * r + i) == Xor(s[5 * r + i], AndNot(s[5 * r + (i + 1) % 5], s[5 * r + (i + 2) % 5]))
  {
    hide Xor, AndNot, Right;
    RightOf(r, i);
  }

  lemma RowNext(s: State, a: State, r: nat)
    requires r < 5 && RowDone(s, a, r, 5)
    ensures RowDone(s, a, r + 1, 0)
  {
    hide ChiLane;
  }

  lemma RowsAll(s: State, a: State)
    requires RowDone(s, a, 5, 0)
    ensures a == Chi(s)
  {
    hide ChiLane;
  }

  lemma RowsNone(s: State)
    ensures RowDone(s, s, 0, 0)
  {
  }

  lemma RowKept(s: State, a: State, r: nat, x: nat)
    requires r < 5 && x < 5 && RowDone(s, a, r, 0)
    ensures a[5 * r + x] == s[5 * r + x]
  {
  }

  method ChiInPlace(st: array<Lane>)
    requires st.Length == 25
    modifies st
    ensures st[..] == Chi(old(st[..]))
  {
    hide Xor, AndNot, ChiLane, RowDone, Chi;
    ghost var s: State := st[..];
    var bc := new Lane[5];
    var j := 0;
    ghost var r := 0;
    RowsNone(s);
    while j < 25
      invariant 0 <= r <= 5 && j == 5 * r && RowDone(s, st[..], r, 0)
    {
      ghost var a := st[..];
      for i := 0 to 5
        invariant st[..] == a
        invariant forall x :: 0 <= x < i ==> bc[x] == s[5 * r + x]
      {
        RowKept(s, a, r, i);
        bc[i] := st[j + i];
      }
      for i := 0 to 5
        invariant forall x :: 0 <= x < 5 ==> bc[x] == s[5 * r + x]
        invariant RowDone(s, st[..], r, i)
      {
        ghost var b := st[..];
        RowStep(s, b, r, i);
        st[j + i] := Xor(st[j + i], AndNot(bc[(i + 1) % 5], bc[(i + 2) % 5]));
        assert st[..] == b[5 * r + i := st[j + i]];
      }
      RowNext(s, st[..], r);
      j, r := j + 5, r + 1;
    }
    RowsAll(s, st[..]);
  }

  method KeccakF(st: array<Lane>)
    requires st.Length == 25
    modifies st
    ensures st[..] == Permutation(old(st[..]))
  {
    hide Theta, Rho, Pi, Chi, Xor;
    ghost var s: State := st[..];
    for r := 0 to 24
      invariant st[..] == Rounds(s, r)
    {
      ThetaInPlace(st);
      RhoPi(st);
      ChiInPlace(st);
      ghost var a := st[..];
      st[0] := Xor(st[0], ROUND_CONSTANTS[r]);
      assert st[..] == Iota(a, ROUND_CONSTANTS[r]);
    }
  }
}
