/** Shift-subtract division: divmod256. */
module Division {
  import opened Bits
  import opened Shifting
  import opened Uint128
  import opened Uint256

  /** The loop's state at scale k: the divisor and one, both shifted left by k, are the next to be tried. */
  ghost predicate AtScale(L: nat, R: nat, k: int, copyd: nat, adder: nat, resDiv: nat, resMod: nat) {
    && resDiv * R + resMod == L
    && if k < 0 then resMod < R else
         && copyd == TimesPow2(R, k)
         && adder == Pow2(k)
         && resDiv % Pow2(k + 1) == 0
         && resMod < 2 * copyd
  }

  /** One turn of the loop at scale k, on numbers. */
  lemma StepKeeps(L: nat, R: nat, k: int, copyd: nat, adder: nat, resDiv: nat, resMod: nat)
    requires L < B256 && R > 0 && R <= resMod
    requires AtScale(L, R, k, copyd, adder, resDiv, resMod)
    ensures k >= 0
    ensures resMod >= copyd ==>
      Bitwise(OrFn, resDiv, adder) == resDiv + adder &&
      AtScale(L, R, k - 1, Shr(copyd, 1), Shr(adder, 1), resDiv + adder, resMod - copyd)
    ensures resMod < copyd ==> AtScale(L, R, k - 1, Shr(copyd, 1), Shr(adder, 1), resDiv, resMod)
  {
    hide TimesPow2, Shr, Bitwise;
    ShiftOne(copyd);
    ShiftOne(adder);
    OrPow2(resDiv, k);
    HalfScale(R, k);
    MultipleOfPow2(resDiv, k);
    if resMod >= copyd {
      AddProduct(resDiv, adder, R, copyd);
    }
  }

  lemma HalfScale(R: nat, k: nat)
    ensures k == 0 ==> TimesPow2(R, k) == R && Pow2(k) == 1
    ensures k > 0 ==> TimesPow2(R, k) / 2 == TimesPow2(R, k - 1) && Pow2(k) / 2 == Pow2(k - 1)
    ensures k > 0 ==> TimesPow2(R, k) == 2 * TimesPow2(R, k - 1)
  {
    if k > 0 {
      TimesPow2Step(R, k);
    }
  }

  lemma MultipleOfPow2(d: nat, k: nat)
    requires d % Pow2(k + 1) == 0
    ensures d % Pow2(k) == 0 && (d + Pow2(k)) % Pow2(k) == 0
  {
    var q, p := d / Pow2(k + 1), Pow2(k);
    MulAssoc(2, p, q);
    DivUnique(d, p, 2 * q, 0) by { assert p * (2 * q) == 2 * (p * q); }
    DivUnique(d + p, p, 2 * q + 1, 0) by { assert p * (2 * q + 1) == 2 * (p * q) + p; }
  }

  lemma AddProduct(resDiv: int, adder: int, R: int, copyd: int)
    requires copyd == R * adder
    ensures (resDiv + adder) * R == resDiv * R + copyd
  {
  }

  lemma BitLenMonotone(x: nat, y: nat)
    requires x <= y
    ensures BitLen(x) <= BitLen(y)
  {
    BitLenBound(x, BitLen(y));
  }

  lemma Pow2Step(n: nat)
    requires n > 0
    ensures Pow2(n) == 2 * Pow2(n - 1)
  {
  }

  /** Aligning the divisor's top bit with the dividend's overshoots by less than a factor of two. */
  lemma Aligned(L: nat, R: nat, d: nat)
    requires 0 < R <= L && BitLen(L) == BitLen(R) + d
    ensures TimesPow2(R, d) < Pow2(BitLen(L)) && L < 2 * TimesPow2(R, d)
    ensures Pow2(d) <= TimesPow2(R, d)
  {
    hide TimesPow2, Pow2;
    var n := BitLen(R);
    Pow2Step(n);
    Pow2Add(n, d);
    AlignedAt(R, Pow2(n - 1), Pow2(d));
  }

  lemma AlignedAt(R: nat, H: nat, P: nat)
    requires 0 < H <= R < 2 * H && P > 0
    ensures R * P < 2 * H * P <= 2 * (R * P) && P <= R * P
  {
    MulLe(H, R, P);
    MulLe(R + 1, 2 * H, P);
    MulLe(1, R, P);
    assert (R + 1) * P == R * P + P;
    assert 2 * H * P == 2 * (H * P);
  }

  /** A shift that stays below the modulus loses nothing. */
  lemma ShiftFits(x: nat, d: nat, w: nat)
    requires TimesPow2(x, d) < w
    ensures ShlMod(x, d, w) == TimesPow2(x, d)
  {
    DivUnique(x * Pow2(d), w, 0, x * Pow2(d));
  }

  /** The initial shifts of the code. */
  lemma InitialShifts(L: nat, R: nat, d: nat)
    requires L < B256 && 0 < R <= L && BitLen(L) == BitLen(R) + d
    ensures ShlMod(R, d, B256) == TimesPow2(R, d) && ShlMod(1, d, B256) == Pow2(d)
    ensures L < 2 * TimesPow2(R, d)
  {
    hide ShlMod;
    Aligned(L, R, d);
    BitLen256(L);
    ShiftFits(R, d, B256);
    ShiftFits(1, d, B256);
  }

  lemma BitLen256(x: nat)
    requires x < B256
    ensures Pow2(BitLen(x)) <= B256
  {
    Pow2At256();
    BitLenBound(x, 256);
    Pow2Monotone(BitLen(x), 256);
  }

  /** The loop starts at scale d, or one lower when the aligned divisor is too large. */
  lemma InitialScale(L: nat, R: nat, d: nat, copyd: nat, adder: nat)
    requires L < B256 && 0 < R <= L && BitLen(L) == BitLen(R) + d
    requires copyd == TimesPow2(R, d) && adder == Pow2(d)
    ensures copyd <= L ==> AtScale(L, R, d, copyd, adder, 0, L)
    ensures copyd > L ==> d > 0 && AtScale(L, R, d - 1, Shr(copyd, 1), Shr(adder, 1), 0, L)
  {
    InitialShifts(L, R, d);
    HalfScale(R, d);
    ShiftOne(copyd);
    ShiftOne(adder);
  }

  lemma QuotientIs(L: nat, R: nat, q: nat, m: nat)
    requires q * R + m == L && m < R
    ensures q == L / R && m == L % R
  {
    assert q * R == R * q;
    DivUnique(L, R, q, m);
  }

  /** Halves copyd and adder in place. */
  method Halve(copyd: U256, adder: U256)
    requires copyd.Valid() && adder.Valid() && Disjoint(copyd, adder)
    modifies copyd.upper, copyd.lower, adder.upper, adder.lower
    ensures copyd.Value() == Shr(old(copyd.Value()), 1) && adder.Value() == Shr(old(adder.Value()), 1)
  {
    hide Shr;
    ShiftR256(copyd, 1, copyd);
    ShiftR256(adder, 1, adder);
  }

  ghost predicate AllApart(a: U256, b: U256, c: U256, d: U256) {
    && a.Valid() && b.Valid() && c.Valid() && d.Valid()
    && Disjoint(a, b) && Disjoint(a, c) && Disjoint(a, d) && Disjoint(b, c) && Disjoint(b, d) && Disjoint(c, d)
  }

  /** One turn of the division loop. */
  method DivStep(ghost L: nat, ghost R: nat, ghost k: int, copyd: U256, adder: U256, resDiv: U256, resMod: U256)
    requires L < B256 && R > 0 && AllApart(copyd, adder, resDiv, resMod)
    requires R <= resMod.Value()
    requires AtScale(L, R, k, copyd.Value(), adder.Value(), resDiv.Value(), resMod.Value())
    modifies copyd.upper, copyd.lower, adder.upper, adder.lower
    modifies resDiv.upper, resDiv.lower, resMod.upper, resMod.lower
    ensures k >= 0
    ensures AtScale(L, R, k - 1, copyd.Value(), adder.Value(), resDiv.Value(), resMod.Value())
  {
    hide AtScale, Shr, Bitwise, SubMod, U256.Value;
    StepKeeps(L, R, k, copyd.Value(), adder.Value(), resDiv.Value(), resMod.Value());
    if Gte256(resMod, copyd) {
      SubModIs(resMod.Value(), copyd.Value(), B256);
      Minus256(resMod, copyd, resMod);
      Bitwise256(OrFn, resDiv, adder, resDiv);
    }
    Halve(copyd, adder);
  }

  /** The division loop. */
  method DivLoop(ghost L: nat, ghost R: nat, ghost k0: int,
                 r: U256, copyd: U256, adder: U256, resDiv: U256, resMod: U256)
    requires L < B256 && R > 0 && AllApart(copyd, adder, resDiv, resMod)
    requires r.Value() == R && k0 >= -1
    requires Disjoint(r, copyd) && Disjoint(r, adder) && Disjoint(r, resDiv) && Disjoint(r, resMod)
    requires AtScale(L, R, k0, copyd.Value(), adder.Value(), resDiv.Value(), resMod.Value())
    modifies copyd.upper, copyd.lower, adder.upper, adder.lower
    modifies resDiv.upper, resDiv.lower, resMod.upper, resMod.lower
    ensures resDiv.Value() == L / R && resMod.Value() == L % R
  {
    hide AtScale;
    ghost var k := k0;
    while Gte256(resMod, r)
      invariant AtScale(L, R, k, copyd.Value(), adder.Value(), resDiv.Value(), resMod.Value())
      invariant k >= -1
      decreases k
    {
      DivStep(L, R, k, copyd, adder, resDiv, resMod);
      k := k - 1;
    }
    AtEnd(L, R, k, copyd.Value(), adder.Value(), resDiv.Value(), resMod.Value());
  }

  /** Division when the divisor is not the larger: align, then run the loop. */
  method DivAligned(l: U256, r: U256, diffBits: u32, resDiv: U256, resMod: U256)
    requires 0 < r.Value() <= l.Value() && BitLen(l.Value()) == BitLen(r.Value()) + diffBits
    requires resDiv.Valid() && resMod.Valid() && Disjoint(resDiv, resMod)
    requires r.Valid() && Disjoint(r, resDiv) && Disjoint(r, resMod)
    requires resDiv.Value() == 0 && resMod.Value() == l.Value()
    modifies resDiv.upper, resDiv.lower, resMod.upper, resMod.lower
    ensures resDiv.Value() == old(l.Value()) / old(r.Value()) && resMod.Value() == old(l.Value()) % old(r.Value())
  {
    hide AtScale, BitLen, Pow2, ShlMod, Shr, TimesPow2, U256.Value;
    ghost var L, R := l.Value(), r.Value();
    var copyd := new U256(0, 0, 0, 0);
    var adder := new U256(0, 0, 0, 0);
    var one := new U256(0, 0, 0, 1);
    InitialShifts(L, R, diffBits);
    InitialScale(L, R, diffBits, TimesPow2(R, diffBits), Pow2(diffBits));
    ShiftL256(r, diffBits, copyd);
    assert copyd.Value() == TimesPow2(R, diffBits);
    ShiftL256(one, diffBits, adder);
    assert adder.Value() == Pow2(diffBits) && copyd.Value() == TimesPow2(R, diffBits);
    assert resMod.Value() == L && resDiv.Value() == 0 && r.Value() == R;
    ghost var k: int := diffBits;
    if Gt256(copyd, resMod) {
      Halve(copyd, adder);
      k := k - 1;
    }
    assert resMod.Value() == L && resDiv.Value() == 0 && r.Value() == R;
    DivLoop(L, R, k, r, copyd, adder, resDiv, resMod);
  }

  method DivMod256(l: U256, r: U256, retDiv: U256, retMod: U256)
    requires r.Value() > 0
    requires l.Valid() && r.Valid() && Apart(l, retDiv) && Apart(l, retMod)
    requires Apart(retDiv, retMod) && retDiv != retMod
    modifies retDiv.upper, retDiv.lower, retMod.upper, retMod.lower
    ensures retDiv.Value() == old(l.Value()) / old(r.Value())
    ensures retMod.Value() == old(l.Value()) % old(r.Value())
  {
    hide BitLen, Pow2, U256.Value;
    ghost var L, R := l.Value(), r.Value();
    var lBits := Bits256(l);
    var rBits := Bits256(r);
    var diffBits: u32 := SubMod(lBits, rBits, B32);
    if Gt256(r, l) {
      QuotientIs(L, R, 0, L);
      Copy256(retMod, l);
      Clear256(retDiv);
    } else {
      BitLenMonotone(R, L);
      SubModIs(lBits, rBits, B32);
      var resDiv := new U256(0, 0, 0, 0);
      var resMod := new U256(0, 0, 0, 0);
      Copy256(resMod, l);
      assert resMod.Value() == L && resDiv.Value() == 0 && r.Value() == R && l.Value() == L;
      DivAligned(l, r, diffBits, resDiv, resMod);
      assert resDiv.Value() == L / R && resMod.Value() == L % R;
      Copy256(retDiv, resDiv);
      assert resMod.Value() == L % R;
      Copy256(retMod, resMod);
    }
  }

  lemma AtEnd(L: nat, R: nat, k: int, copyd: nat, adder: nat, resDiv: nat, resMod: nat)
    requires AtScale(L, R, k, copyd, adder, resDiv, resMod) && resMod < R
    ensures resDiv == L / R && resMod == L % R
  {
    QuotientIs(L, R, resDiv, resMod);
  }
}
