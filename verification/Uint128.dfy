/** 128-bit unsigned integers: two 64-bit limbs, updated through pointers that may alias. */
module Uint128 {
  import opened Bits
  import opened Shifting

  class U128 {
    var upper: u64
    var lower: u64

    constructor (u: u64, l: u64)
      ensures upper == u && lower == l && Value() == u * B64 + l
    {
      upper, lower := u, l;
    }

    /** The number the two limbs stand for. */
    ghost function Value(): (v: nat)
      reads this
      ensures v < B128
    {
      upper * B64 + lower
    }
  }

  // ---- 64-bit machine arithmetic -----------------------------------------------------

  function AddW(a: u64, b: u64): (r: u64)
    ensures r == a + b || (r == a + b - B64 && r < a)
  {
    (a + b) % B64
  }

  function SubW(a: u64, b: u64): (r: u64)
    ensures r == a - b || (r == a - b + B64 && r > a)
  {
    (a - b) % B64
  }

  function ShlW(a: u64, v: nat): (r: u64) {
    ShlMod(a, v, B64)
  }

  function ShrW(a: u64, v: nat): (r: u64) {
    Shr(a, v)
  }

  // ---- Comparisons -------------------------------------------------------------------

  predicate Zero128(number: U128)
    reads number
    ensures Zero128(number) <==> number.Value() == 0
  {
    number.lower == 0 && number.upper == 0
  }

  predicate Equal128(number1: U128, number2: U128)
    reads number1, number2
    ensures Equal128(number1, number2) <==> number1.Value() == number2.Value()
  {
    number1.upper == number2.upper && number1.lower == number2.lower
  }

  predicate Gt128(number1: U128, number2: U128)
    reads number1, number2
    ensures Gt128(number1, number2) <==> number1.Value() > number2.Value()
  {
    if number1.upper == number2.upper then number1.lower > number2.lower
    else number1.upper > number2.upper
  }

  predicate Gte128(number1: U128, number2: U128)
    reads number1, number2
    ensures Gte128(number1, number2) <==> number1.Value() >= number2.Value()
  {
    Gt128(number1, number2) || Equal128(number1, number2)
  }

  // ---- Moves -------------------------------------------------------------------------

  method Copy128(target: U128, number: U128)
    modifies target
    ensures target.Value() == old(number.Value())
  {
    target.upper := number.upper;
    target.lower := number.lower;
  }

  method Clear128(target: U128)
    modifies target
    ensures target.Value() == 0
  {
    target.upper := 0;
    target.lower := 0;
  }

  // ---- Shifts ------------------------------------------------------------------------

  lemma LimbSplit(v: nat)
    requires v <= 64
    ensures Pow2(v) * Pow2(64 - v) == B64
  {
    Pow2At64();
    Pow2Add(v, 64 - v);
  }

  lemma Shl128Small(u: u64, l: u64, v: nat)
    requires 0 < v < 64
    ensures ShlW(u, v) + ShrW(l, 64 - v) < B64
    ensures ShlMod(u * B64 + l, v, B128) == (ShlW(u, v) + ShrW(l, 64 - v)) * B64 + ShlW(l, v)
  {
    LimbSplit(v);
    ShlPair(u, l, Pow2(v), Pow2(64 - v), B64);
  }

  lemma Shl128Large(u: u64, l: u64, v: nat)
    requires 64 < v < 128
    ensures ShlMod(u * B64 + l, v, B128) == ShlW(l, v - 64) * B64
  {
    Pow2At64();
    Pow2Add(v - 64, 64);
    ShlOver(u, l, Pow2(v - 64), B64);
  }

  lemma Shr128Small(u: u64, l: u64, v: nat)
    requires 0 < v < 64
    ensures ShlW(u, 64 - v) + ShrW(l, v) < B64
    ensures Shr(u * B64 + l, v) == ShrW(u, v) * B64 + (ShlW(u, 64 - v) + ShrW(l, v))
  {
    LimbSplit(v);
    ShrPair(u, l, Pow2(v), Pow2(64 - v), B64);
  }

  lemma Shr128Large(u: u64, l: u64, v: nat)
    requires 64 < v < 128
    ensures Shr(u * B64 + l, v) == ShrW(u, v - 64)
  {
    Pow2At64();
    Pow2Add(v - 64, 64);
    ShrOver(u, l, Pow2(v - 64), B64);
  }

  lemma Shl128Mid(u: u64, l: u64)
    ensures ShlMod(u * B64 + l, 64, B128) == l * B64
  {
    Pow2At64();
    ShlOver(u, l, 1, B64);
  }

  lemma Shr128Mid(u: u64, l: u64)
    ensures Shr(u * B64 + l, 64) == u
  {
    Pow2At64();
    ShrOver(u, l, 1, B64);
  }

  lemma Shl128All(x: nat, v: nat)
    requires v >= 128
    ensures ShlMod(x, v, B128) == 0
  {
    Pow2At128();
    ShlAll(x, 128, v);
  }

  lemma Shr128All(x: nat, v: nat)
    requires v >= 128 && x < B128
    ensures Shr(x, v) == 0
  {
    Pow2At128();
    ShrAll(x, 128, v);
  }

  lemma ShiftNone(x: nat, w: nat)
    requires x < w
    ensures ShlMod(x, 0, w) == x && Shr(x, 0) == x
  {
    assert Pow2(0) == 1;
    DivUnique(x, w, 0, x);
  }

  method ShiftL128(number: U128, value: u32, target: U128)
    modifies target
    ensures target.Value() == ShlMod(old(number.Value()), value, B128)
  {
    hide ShlMod, Shr, Pow2;
    ghost var u, l := number.upper, number.lower;
    if value >= 128 {
      Shl128All(number.Value(), value);
      Clear128(target);
    } else if value == 64 {
      Shl128Mid(u, l);
      target.upper := number.lower;
      target.lower := 0;
    } else if value == 0 {
      ShiftNone(number.Value(), B128);
      Copy128(target, number);
    } else if value < 64 {
      Shl128Small(u, l, value);
      target.upper := AddW(ShlW(number.upper, value), ShrW(number.lower, 64 - value));
      target.lower := ShlW(number.lower, value);
    } else {
      Shl128Large(u, l, value);
      target.upper := ShlW(number.lower, value - 64);
      target.lower := 0;
    }
  }

  /** With target and number the same object a shift by exactly 64 clears the upper limb before reading it. */
  method ShiftR128(number: U128, value: u32, target: U128)
    modifies target
    ensures target.Value() ==
      if value == 64 && target == number then 0 else Shr(old(number.Value()), value)
  {
    hide ShlMod, Shr, Pow2;
    ghost var u, l := number.upper, number.lower;
    if value >= 128 {
      Shr128All(number.Value(), value);
      Clear128(target);
    } else if value == 64 {
      Shr128Mid(u, l);
      target.upper := 0;
      target.lower := number.upper;
    } else if value == 0 {
      ShiftNone(number.Value(), B128);
      Copy128(target, number);
    } else if value < 64 {
      Shr128Small(u, l, value);
      var result := new U128(ShrW(number.upper, value),
                             AddW(ShlW(number.upper, 64 - value), ShrW(number.lower, value)));
      Copy128(target, result);
    } else {
      Shr128Large(u, l, value);
      target.lower := ShrW(number.upper, value - 64);
      target.upper := 0;
    }
  }

  // ---- Bit length --------------------------------------------------------------------

  /** The bit length of a two-limb number is that of its top limb, moved up, when that limb is not zero. */
  lemma BitLenUpper(u: nat, l: nat, k: nat)
    requires u > 0 && l < Pow2(k)
    ensures BitLen(u * Pow2(k) + l) == BitLen(u) + k
  {
    var n := BitLen(u);
    Pow2Add(n, k);
    Pow2Add(n - 1, k);
    MulLe(Pow2(n - 1), u, Pow2(k));
    MulLe(u + 1, Pow2(n), Pow2(k));
    assert (u + 1) * Pow2(k) == u * Pow2(k) + Pow2(k);
    BitLenUnique(u * Pow2(k) + l, n + k);
  }

  lemma BitLen64(x: u64)
    ensures BitLen(x) <= 64
  {
    Pow2At64();
    BitLenBound(x, 64);
  }

  lemma BitLenUpper64(u: u64, l: u64)
    requires u > 0
    ensures BitLen(u * B64 + l) == 64 + BitLen(u)
  {
    Pow2At64();
    BitLenUpper(u, l, 64);
  }

  /** The bit length of a machine word, by shifting it out. */
  method BitsWord(word: u64, start: u32) returns (result: u32)
    requires start <= 128
    ensures result == start + BitLen(word)
  {
    BitLen64(word);
    result := start;
    var w := word;
    while w != 0
      invariant result + BitLen(w) == start + BitLen(word)
      decreases w
    {
      w := w / 2;
      result := result + 1;
    }
  }

  method Bits128(number: U128) returns (result: u32)
    ensures result == BitLen(number.Value())
  {
    hide BitLen, Pow2;
    if number.upper != 0 {
      BitLenUpper64(number.upper, number.lower);
      result := BitsWord(number.upper, 64);
    } else {
      result := BitsWord(number.lower, 0);
    }
  }

  lemma {:induction false} BitLenBound(x: nat, k: nat)
    requires x < Pow2(k)
    ensures BitLen(x) <= k
  {
    if BitLen(x) > k {
      Pow2Monotone(k, BitLen(x) - 1);
    }
  }

  // ---- Addition and subtraction ------------------------------------------------------

  method Add128(number1: U128, number2: U128, target: U128)
    modifies target
    ensures target.Value() == AddMod(old(number1.Value()), old(number2.Value()), B128)
  {
    var carry := if AddW(number1.lower, number2.lower) < number1.lower then 1 else 0;
    target.upper := AddW(AddW(number1.upper, number2.upper), carry);
    target.lower := AddW(number1.lower, number2.lower);
  }

  method Minus128(number1: U128, number2: U128, target: U128)
    modifies target
    ensures target.Value() == SubMod(old(number1.Value()), old(number2.Value()), B128)
  {
    var borrow := if SubW(number1.lower, number2.lower) > number1.lower then 1 else 0;
    target.upper := SubW(SubW(number1.upper, number2.upper), borrow);
    target.lower := SubW(number1.lower, number2.lower);
  }

  // ---- Bitwise operators -------------------------------------------------------------

  lemma BitwiseSplit64(fn: BitFn, u: nat, l: u64, u': nat, l': u64)
    ensures Bitwise(fn, l, l') < B64
    ensures Bitwise(fn, u * B64 + l, u' * B64 + l') == Bitwise(fn, u, u') * B64 + Bitwise(fn, l, l')
  {
    Pow2At64();
    BitwiseSplit(fn, 64, l, u, l', u');
  }

  function BitwiseW(fn: BitFn, a: u64, b: u64): (r: u64) {
    BitwiseSplit64(fn, 0, a, 0, b);
    Bitwise(fn, a, b)
  }

  /** or128, xor128 and and128 differ only in the operator applied to each limb. */
  method Bitwise128(fn: BitFn, number1: U128, number2: U128, target: U128)
    modifies target
    ensures target.Value() == Bitwise(fn, old(number1.Value()), old(number2.Value()))
  {
    ghost var v := Bitwise(fn, number1.Value(), number2.Value());
    assert v == BitwiseW(fn, number1.upper, number2.upper) * B64 + BitwiseW(fn, number1.lower, number2.lower) by {
      BitwiseSplit64(fn, number1.upper, number1.lower, number2.upper, number2.lower);
    }
    target.upper := BitwiseW(fn, number1.upper, number2.upper);
    target.lower := BitwiseW(fn, number1.lower, number2.lower);
  }

  method Not128(number: U128)
    modifies number
    ensures number.Value() == B128 - 1 - old(number.Value())
  {
    number.upper := B64 - 1 - number.upper;
    number.lower := B64 - 1 - number.lower;
  }
}
