/** 256-bit unsigned integers: a pair of 128-bit numbers, updated through pointers that may alias. */
module Uint256 {
  import opened Bits
  import opened Shifting
  import opened Uint128

  class U256 {
    const upper: U128
    const lower: U128

    constructor (uu: u64, ul: u64, lu: u64, ll: u64)
      ensures Valid() && fresh(upper) && fresh(lower)
      ensures upper.upper == uu && upper.lower == ul && lower.upper == lu && lower.lower == ll
      ensures Value() == (uu * B64 + ul) * B128 + (lu * B64 + ll)
    {
      upper := new U128(uu, ul);
      lower := new U128(lu, ll);
    }

    /** The two halves are separate storage. */
    ghost predicate Valid() {
      upper != lower
    }

    /** The number the four limbs stand for. */
    ghost function Value(): (v: nat)
      reads upper, lower
      ensures v < B256
    {
      upper.Value() * B128 + lower.Value()
    }
  }

  ghost predicate Disjoint(a: U256, b: U256) {
    a.upper != b.upper && a.upper != b.lower && a.lower != b.upper && a.lower != b.lower
  }

  /** Two pointers to 256-bit numbers either are the same pointer or share no storage. */
  ghost predicate Apart(a: U256, b: U256) {
    && a.Valid()
    && b.Valid()
    && (a == b || Disjoint(a, b))
  }

  // ---- Comparisons -------------------------------------------------------------------

  predicate Zero256(number: U256)
    reads number.upper, number.lower
    ensures Zero256(number) <==> number.Value() == 0
  {
    Zero128(number.lower) && Zero128(number.upper)
  }

  predicate Equal256(number1: U256, number2: U256)
    reads number1.upper, number1.lower, number2.upper, number2.lower
    ensures Equal256(number1, number2) <==> number1.Value() == number2.Value()
  {
    Equal128(number1.upper, number2.upper) && Equal128(number1.lower, number2.lower)
  }

  predicate Gt256(number1: U256, number2: U256)
    reads number1.upper, number1.lower, number2.upper, number2.lower
    ensures Gt256(number1, number2) <==> number1.Value() > number2.Value()
  {
    if Equal128(number1.upper, number2.upper) then Gt128(number1.lower, number2.lower)
    else Gt128(number1.upper, number2.upper)
  }

  predicate Gte256(number1: U256, number2: U256)
    reads number1.upper, number1.lower, number2.upper, number2.lower
    ensures Gte256(number1, number2) <==> number1.Value() >= number2.Value()
  {
    Gt256(number1, number2) || Equal256(number1, number2)
  }

  // ---- Moves -------------------------------------------------------------------------

  method Copy256(target: U256, number: U256)
    requires Apart(target, number)
    modifies target.upper, target.lower
    ensures target.Value() == old(number.Value())
  {
    Copy128(target.upper, number.upper);
    Copy128(target.lower, number.lower);
  }

  method Clear256(target: U256)
    requires target.Valid()
    modifies target.upper, target.lower
    ensures target.Value() == 0
  {
    Clear128(target.upper);
    Clear128(target.lower);
  }

  // ---- Shifts ------------------------------------------------------------------------

  lemma HalfSplit(v: nat)
    requires v <= 128
    ensures Pow2(v) * Pow2(128 - v) == B128
  {
    Pow2At128();
    Pow2Add(v, 128 - v);
  }

  lemma Shl256Small(u: nat, l: nat, v: nat)
    requires 0 < v < 128 && u < B128 && l < B128
    ensures ShlMod(u, v, B128) + Shr(l, 128 - v) < B128
    ensures ShlMod(u * B128 + l, v, B256) == (ShlMod(u, v, B128) + Shr(l, 128 - v)) * B128 + ShlMod(l, v, B128)
  {
    HalfSplit(v);
    ShlPair(u, l, Pow2(v), Pow2(128 - v), B128);
  }

  lemma Shl256Large(u: nat, l: nat, v: nat)
    requires 128 < v < 256 && u < B128 && l < B128
    ensures ShlMod(u * B128 + l, v, B256) == ShlMod(l, v - 128, B128) * B128
  {
    Pow2At128();
    Pow2Add(v - 128, 128);
    ShlOver(u, l, Pow2(v - 128), B128);
  }

  lemma Shl256Mid(u: nat, l: nat)
    requires u < B128 && l < B128
    ensures ShlMod(u * B128 + l, 128, B256) == l * B128
  {
    Pow2At128();
    ShlOver(u, l, 1, B128);
  }

  lemma Shr256Small(u: nat, l: nat, v: nat)
    requires 0 < v < 128 && u < B128 && l < B128
    ensures ShlMod(u, 128 - v, B128) + Shr(l, v) < B128
    ensures Shr(u * B128 + l, v) == Shr(u, v) * B128 + (ShlMod(u, 128 - v, B128) + Shr(l, v))
  {
    HalfSplit(v);
    ShrPair(u, l, Pow2(v), Pow2(128 - v), B128);
  }

  lemma Shr256Large(u: nat, l: nat, v: nat)
    requires 128 < v < 256 && u < B128 && l < B128
    ensures Shr(u * B128 + l, v) == Shr(u, v - 128)
  {
    Pow2At128();
    Pow2Add(v - 128, 128);
    ShrOver(u, l, Pow2(v - 128), B128);
  }

  lemma Shr256Mid(u: nat, l: nat)
    requires u < B128 && l < B128
    ensures Shr(u * B128 + l, 128) == u
  {
    Pow2At128();
    ShrOver(u, l, 1, B128);
  }

  lemma Shl256All(x: nat, v: nat)
    requires v >= 256
    ensures ShlMod(x, v, B256) == 0
  {
    Pow2At256();
    ShlAll(x, 256, v);
  }

  lemma Shr256All(x: nat, v: nat)
    requires v >= 256 && x < B256
    ensures Shr(x, v) == 0
  {
    Pow2At256();
    ShrAll(x, 256, v);
  }

  /** A sum that fits needs no reduction. */
  lemma AddSmall(x: nat, y: nat, w: nat)
    requires x + y < w
    ensures AddMod(x, y, w) == x + y
  {
    DivUnique(x + y, w, 0, x + y);
  }

  /** The branch of shiftl256 for shifts that split a half. */
  method ShiftL256Across(number: U256, value: u32, target: U256)
    requires 0 < value < 128
    requires Apart(number, target)
    modifies target.upper, target.lower
    ensures target.Value() == ShlMod(old(number.Value()), value, B256)
  {
    hide U128.Value, ShlMod, Shr, AddMod, Pow2;
    ghost var u, l, v := number.upper.Value(), number.lower.Value(), number.Value();
    Shl256Small(u, l, value);
    AddSmall(ShlMod(u, value, B128), Shr(l, 128 - value), B128);
    var tmp1 := new U128(0, 0);
    var tmp2 := new U128(0, 0);
    var result := new U256(0, 0, 0, 0);
    ShiftL128(number.upper, value, tmp1);
    ShiftR128(number.lower, 128 - value, tmp2);
    assert tmp1.Value() == ShlMod(u, value, B128) && tmp2.Value() == Shr(l, 128 - value);
    Add128(tmp1, tmp2, result.upper);
    ShiftL128(number.lower, value, result.lower);
    assert result.Value() == ShlMod(v, value, B256);
    hide U256.Value;
    Copy256(target, result);
  }

  method ShiftL256(number: U256, value: u32, target: U256)
    requires Apart(number, target)
    modifies target.upper, target.lower
    ensures target.Value() == ShlMod(old(number.Value()), value, B256)
  {
    hide U128.Value, ShlMod, Shr, AddMod, Pow2;
    ghost var u, l := number.upper.Value(), number.lower.Value();
    if value >= 256 {
      Shl256All(number.Value(), value);
      Clear256(target);
    } else if value == 128 {
      Shl256Mid(u, l);
      Copy128(target.upper, number.lower);
      Clear128(target.lower);
    } else if value == 0 {
      ShiftNone(number.Value(), B256);
      Copy256(target, number);
    } else if value < 128 {
      ShiftL256Across(number, value, target);
    } else {
      Shl256Large(u, l, value);
      ShiftL128(number.lower, value - 128, target.upper);
      Clear128(target.lower);
    }
  }

  /** The branch of shiftr256 for shifts that split a half. */
  method ShiftR256Across(number: U256, value: u32, target: U256)
    requires 0 < value < 128
    requires Apart(number, target)
    modifies target.upper, target.lower
    ensures target.Value() == Shr(old(number.Value()), value)
  {
    hide U128.Value, ShlMod, Shr, AddMod, Pow2;
    ghost var u, l, v := number.upper.Value(), number.lower.Value(), number.Value();
    Shr256Small(u, l, value);
    AddSmall(Shr(l, value), ShlMod(u, 128 - value, B128), B128);
    var tmp1 := new U128(0, 0);
    var tmp2 := new U128(0, 0);
    var result := new U256(0, 0, 0, 0);
    ShiftR128(number.upper, value, result.upper);
    ShiftR128(number.lower, value, tmp1);
    ShiftL128(number.upper, 128 - value, tmp2);
    assert tmp1.Value() == Shr(l, value) && tmp2.Value() == ShlMod(u, 128 - value, B128);
    Add128(tmp1, tmp2, result.lower);
    assert result.Value() == Shr(v, value);
    hide U256.Value;
    Copy256(target, result);
  }

  method ShiftR256(number: U256, value: u32, target: U256)
    requires Apart(number, target)
    modifies target.upper, target.lower
    ensures target.Value() == Shr(old(number.Value()), value)
  {
    hide U128.Value, ShlMod, Shr, AddMod, Pow2;
    ghost var u, l := number.upper.Value(), number.lower.Value();
    if value >= 256 {
      Shr256All(number.Value(), value);
      Clear256(target);
    } else if value == 128 {
      Shr256Mid(u, l);
      Copy128(target.lower, number.upper);
      Clear128(target.upper);
    } else if value == 0 {
      ShiftNone(number.Value(), B256);
      Copy256(target, number);
    } else if value < 128 {
      ShiftR256Across(number, value, target);
    } else {
      Shr256Large(u, l, value);
      ShiftR128(number.upper, value - 128, target.lower);
      Clear128(target.upper);
    }
  }

  // ---- Bit length --------------------------------------------------------------------

  lemma BitLen128(x: nat)
    requires x < B128
    ensures BitLen(x) <= 128
  {
    Pow2At128();
    BitLenBound(x, 128);
  }

  lemma BitLenUpper128(u: nat, l: nat)
    requires u > 0 && l < B128
    ensures BitLen(u * B128 + l) == 128 + BitLen(u)
  {
    Pow2At128();
    BitLenUpper(u, l, 128);
  }

  lemma ShiftOne(x: nat)
    ensures Shr(x, 1) == x / 2
  {
    assert Pow2(1) == 2;
  }

  /** Counts how often a half can be shifted right, in place, before it is zero. */
  method BitsHalf(number: U128, start: u32) returns (result: u32)
    requires start <= 128
    ensures result == start + BitLen(number.Value())
  {
    hide Shr, Pow2;
    BitLen128(number.Value());
    result := start;
    var up := new U128(0, 0);
    Copy128(up, number);
    while !Zero128(up)
      invariant fresh(up)
      invariant result + BitLen(up.Value()) == start + BitLen(number.Value())
      decreases up.Value()
    {
      ShiftOne(up.Value());
      ShiftR128(up, 1, up);
      result := result + 1;
    }
  }

  method Bits256(number: U256) returns (result: u32)
    ensures result == BitLen(number.Value())
  {
    hide BitLen, Pow2;
    if !Zero128(number.upper) {
      BitLenUpper128(number.upper.Value(), number.lower.Value());
      result := BitsHalf(number.upper, 128);
    } else {
      result := BitsHalf(number.lower, 0);
    }
  }

  // ---- Addition and subtraction ------------------------------------------------------

  /** Adding halves with a carry, as the code detects it, is addition modulo 2^256. */
  lemma AddHalves(u1: nat, l1: nat, u2: nat, l2: nat)
    requires u1 < B128 && l1 < B128 && u2 < B128 && l2 < B128
    ensures var low := AddMod(l1, l2, B128); var high := AddMod(u1, u2, B128);
      AddMod(u1 * B128 + l1, u2 * B128 + l2, B256) ==
      (if l1 > low then AddMod(high, 1, B128) else high) * B128 + low
  {
    hide U128.Value, AddMod;
    AddModIs(l1, l2, B128);
    AddModIs(u1, u2, B128);
    AddModIs(AddMod(u1, u2, B128), 1, B128);
    AddModIs(u1 * B128 + l1, u2 * B128 + l2, B256);
  }

  lemma SubHalves(u1: nat, l1: nat, u2: nat, l2: nat)
    requires u1 < B128 && l1 < B128 && u2 < B128 && l2 < B128
    ensures var low := SubMod(l1, l2, B128); var high := SubMod(u1, u2, B128);
      SubMod(u1 * B128 + l1, u2 * B128 + l2, B256) ==
      (if low > l1 then SubMod(high, 1, B128) else high) * B128 + low
  {
    hide U128.Value, SubMod;
    SubModIs(l1, l2, B128);
    SubModIs(u1, u2, B128);
    SubModIs(SubMod(u1, u2, B128), 1, B128);
    SubModIs(u1 * B128 + l1, u2 * B128 + l2, B256);
  }

  method Add256(number1: U256, number2: U256, target: U256)
    requires Apart(number1, target) && Apart(number2, target)
    modifies target.upper, target.lower
    ensures target.Value() == AddMod(old(number1.Value()), old(number2.Value()), B256)
  {
    hide U128.Value, AddMod;
    AddHalves(number1.upper.Value(), number1.lower.Value(), number2.upper.Value(), number2.lower.Value());
    var tmp := new U128(0, 0);
    Add128(number1.upper, number2.upper, target.upper);
    Add128(number1.lower, number2.lower, tmp);
    if Gt128(number1.lower, tmp) {
      var one := new U128(0, 1);
      Add128(target.upper, one, target.upper);
    }
    Add128(number1.lower, number2.lower, target.lower);
  }

  method Minus256(number1: U256, number2: U256, target: U256)
    requires Apart(number1, target) && Apart(number2, target)
    modifies target.upper, target.lower
    ensures target.Value() == SubMod(old(number1.Value()), old(number2.Value()), B256)
  {
    hide U128.Value, SubMod;
    SubHalves(number1.upper.Value(), number1.lower.Value(), number2.upper.Value(), number2.lower.Value());
    var tmp := new U128(0, 0);
    Minus128(number1.upper, number2.upper, target.upper);
    Minus128(number1.lower, number2.lower, tmp);
    if Gt128(tmp, number1.lower) {
      var one := new U128(0, 1);
      Minus128(target.upper, one, target.upper);
    }
    Minus128(number1.lower, number2.lower, target.lower);
  }

  // ---- Bitwise operators -------------------------------------------------------------

  lemma BitwiseSplit128(fn: BitFn, u: nat, l: nat, u': nat, l': nat)
    requires l < B128 && l' < B128
    ensures Bitwise(fn, l, l') < B128
    ensures Bitwise(fn, u * B128 + l, u' * B128 + l') == Bitwise(fn, u, u') * B128 + Bitwise(fn, l, l')
  {
    Pow2At128();
    BitwiseSplit(fn, 128, l, u, l', u');
  }

  /** or256, xor256 and and256 differ only in the operator applied to each half. */
  method Bitwise256(fn: BitFn, number1: U256, number2: U256, target: U256)
    requires Apart(number1, target) && Apart(number2, target)
    modifies target.upper, target.lower
    ensures target.Value() == Bitwise(fn, old(number1.Value()), old(number2.Value()))
  {
    hide Bitwise;
    BitwiseSplit128(fn, number1.upper.Value(), number1.lower.Value(), number2.upper.Value(), number2.lower.Value());
    Bitwise128(fn, number1.upper, number2.upper, target.upper);
    Bitwise128(fn, number1.lower, number2.lower, target.lower);
  }

  method Not256(number: U256)
    requires number.Valid()
    modifies number.upper, number.lower
    ensures number.Value() == B256 - 1 - old(number.Value())
  {
    Not128(number.upper);
    Not128(number.lower);
  }
}
