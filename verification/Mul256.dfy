/** Schoolbook multiplication: mul128 over 32-bit words and mul256 over 64-bit words. */
module Multiply {
  import opened Bits
  import opened Uint128
  import opened Uint256

  const B96: nat := 0x1_0000_0000_0000_0000_0000_0000
  function MulMod(x: nat, y: nat, w: nat): (r: nat)
    requires w > 0
    ensures r < w
  {
    MulNonneg(x, y);
    x * y % w
  }

  function Times(x: nat, y: nat): (r: nat)
    ensures r == x * y
  {
    MulNonneg(x, y);
    x * y
  }

  /** Four words of a number, most significant first, as the array initialisers list them. */
  datatype Words = Words(w0: nat, w1: nat, w2: nat, w3: nat) {
    ghost function In32(): nat {
      w0 * B96 + w1 * B64 + w2 * B32 + w3
    }

    ghost function In64(): nat {
      w0 * B192 + w1 * B128 + w2 * B64 + w3
    }
  }

  /** The ten partial products that reach below w^4, named by their indices in the code's table. */
  datatype Partials = Partials(n00: nat, n11: nat, n22: nat, n33: nat,
                               n01: nat, n12: nat, n23: nat,
                               n02: nat, n13: nat, n03: nat)

  /** products[i][y] holds top[3 - i] * bottom[y]. */
  function PartialsOf(top: Words, bottom: Words): Partials {
    Partials(Times(top.w3, bottom.w0), Times(top.w2, bottom.w1), Times(top.w1, bottom.w2), Times(top.w0, bottom.w3),
             Times(top.w3, bottom.w1), Times(top.w2, bottom.w2), Times(top.w1, bottom.w3),
             Times(top.w3, bottom.w2), Times(top.w2, bottom.w3), Times(top.w3, bottom.w3))
  }

  /** The number the partial products add up to, modulo the fourth power of the word size. */
  ghost function Sum32(p: Partials): nat {
    B96 * (p.n00 + p.n11 + p.n22 + p.n33) + B64 * (p.n01 + p.n12 + p.n23) + B32 * (p.n02 + p.n13) + p.n03
  }

  ghost function Sum64(p: Partials): nat {
    B192 * (p.n00 + p.n11 + p.n22 + p.n33) + B128 * (p.n01 + p.n12 + p.n23) + B64 * (p.n02 + p.n13) + p.n03
  }

  /** The column sums of the code: each partial product is split at w, its high part goes one column up. */
  datatype Columns = Columns(first: nat, second: nat, third: nat, fourth: nat)

  function ColumnsOf(p: Partials, w: nat): Columns
    requires w > 0
  {
    Columns(Lo(p.n00, w) + Hi(p.n01, w) + Lo(p.n11, w) + Hi(p.n12, w) + Lo(p.n22, w) + Hi(p.n23, w) + Lo(p.n33, w),
            Lo(p.n01, w) + Hi(p.n02, w) + Lo(p.n12, w) + Hi(p.n13, w) + Lo(p.n23, w),
            Lo(p.n02, w) + Hi(p.n03, w) + Lo(p.n13, w),
            Lo(p.n03, w))
  }

  function Lo(n: nat, w: nat): (r: nat)
    requires w > 0
    ensures r < w
  {
    n % w
  }

  function Hi(n: nat, w: nat): (r: nat)
    requires w > 0
  {
    n / w
  }

  /** The partial products that a product modulo w^4 drops. */
  ghost function High(a: Words, b: Words, w: nat): int {
    (a.w2 * b.w0 + a.w1 * b.w1 + a.w0 * b.w2) + (a.w1 * b.w0 + a.w0 * b.w1) * w + a.w0 * b.w0 * (w * w)
  }

  lemma Expand32(a: Words, b: Words)
    ensures a.In32() * b.In32() == B128 * High(a, b, B32) + Sum32(PartialsOf(a, b))
  {
    hide High;
    ExpandTerms32(a, b);
  }

  lemma ExpandTerms32(a: Words, b: Words)
    ensures a.In32() * b.In32() ==
      B128 * High(a, b, B32)
      + B96 * (a.w3 * b.w0 + a.w2 * b.w1 + a.w1 * b.w2 + a.w0 * b.w3)
      + B64 * (a.w3 * b.w1 + a.w2 * b.w2 + a.w1 * b.w3)
      + B32 * (a.w3 * b.w2 + a.w2 * b.w3)
      + a.w3 * b.w3
  {
  }

  lemma Expand64(a: Words, b: Words)
    ensures a.In64() * b.In64() == B256 * High(a, b, B64) + Sum64(PartialsOf(a, b))
  {
    hide High;
    ExpandTerms64(a, b);
  }

  lemma ExpandTerms64(a: Words, b: Words)
    ensures a.In64() * b.In64() ==
      B256 * High(a, b, B64)
      + B192 * (a.w3 * b.w0 + a.w2 * b.w1 + a.w1 * b.w2 + a.w0 * b.w3)
      + B128 * (a.w3 * b.w1 + a.w2 * b.w2 + a.w1 * b.w3)
      + B64 * (a.w3 * b.w2 + a.w2 * b.w3)
      + a.w3 * b.w3
  {
  }

  lemma Columns32(p: Partials)
    ensures var c := ColumnsOf(p, B32);
      Sum32(p) == B128 * (p.n00 / B32 + p.n11 / B32 + p.n22 / B32 + p.n33 / B32)
        + B96 * c.first + B64 * c.second + B32 * c.third + c.fourth
  {
  }

  lemma Columns64(p: Partials)
    ensures var c := ColumnsOf(p, B64);
      Sum64(p) == B256 * (p.n00 / B64 + p.n11 / B64 + p.n22 / B64 + p.n33 / B64)
        + B192 * c.first + B128 * c.second + B64 * c.third + c.fourth
  {
  }

  // ---- mul128 ------------------------------------------------------------------------

  lemma Product32(x: nat, y: nat)
    requires x < B32 && y < B32
    ensures Times(x, y) <= (B32 - 1) * (B32 - 1)
  {
    MulMono(x, y, B32 - 1);
    MulMono(B32 - 1, x, B32 - 1);
  }

  /** The words of a two-limb number, as both array initialisers of mul128 take them. */
  function Words32(upper: u64, lower: u64): (r: Words)
    ensures r.w0 < B32 && r.w1 < B32 && r.w2 < B32 && r.w3 < B32
    ensures r.In32() == upper * B64 + lower
  {
    Words(upper / B32, upper % B32, lower / B32, lower % B32)
  }

  lemma Product128(a: Words, b: Words)
    ensures var c := ColumnsOf(PartialsOf(a, b), B32);
      MulMod(a.In32(), b.In32(), B128) == (B96 * c.first + B64 * c.second + B32 * c.third + c.fourth) % B128
  {
    var p := PartialsOf(a, b);
    var c := ColumnsOf(p, B32);
    Expand32(a, b);
    Columns32(p);
    var k := High(a, b, B32) + (p.n00 / B32 + p.n11 / B32 + p.n22 / B32 + p.n33 / B32);
    DropMultiple(k, B96 * c.first + B64 * c.second + B32 * c.third + c.fourth, a.In32() * b.In32(), B128);
  }

  lemma DropMultiple(k: int, s: int, x: int, w: nat)
    requires w > 0 && x == w * k + s
    ensures x % w == s % w
  {
    MulAddInt(w, k, s / w);
    DivUnique(x, w, k + s / w, s % w);
  }

  lemma MulAddInt(w: int, k: int, j: int)
    ensures w * (k + j) == w * k + w * j
  {
  }

  /** The table of partial products that the two nested loops fill. */
  method Products32(top: array<u64>, bottom: array<u64>) returns (products: array2<u64>)
    requires top.Length == 4 && bottom.Length == 4
    requires forall i :: 0 <= i < 4 ==> top[i] < B32 && bottom[i] < B32
    ensures fresh(products) && products.Length0 == 4 && products.Length1 == 4
    ensures forall i, j :: 0 <= i < 4 && 0 <= j < 4 ==> products[i, j] == Times(top[3 - i], bottom[j])
  {
    hide Times;
    products := new u64[4, 4];
    var y := 3;
    while y > -1
      invariant -1 <= y <= 3
      invariant forall i, j :: 0 <= i < 4 && y < j < 4 ==> products[i, j] == Times(top[3 - i], bottom[j])
    {
      var x := 3;
      while x > -1
        invariant -1 <= x <= 3
        invariant forall i, j :: 0 <= i < 4 && y < j < 4 ==> products[i, j] == Times(top[3 - i], bottom[j])
        invariant forall i :: 0 <= i < 3 - x ==> products[i, y] == Times(top[3 - i], bottom[y])
      {
        Product32(top[x], bottom[y]);
        products[3 - x, y] := Times(top[x], bottom[y]);
        x := x - 1;
      }
      y := y - 1;
    }
  }

  lemma Shl32(n: u64)
    ensures ShlW(n, 32) == (n % B32) * B32
  {
    Pow2At32();
  }

  lemma Shr32(n: u64)
    ensures ShrW(n, 32) == n / B32
  {
    Pow2At32();
  }

  /** The three additions at the end of mul128. */
  method AddColumns32(first: u64, second: u64, third: u64, fourth: u64, target: U128)
    modifies target
    ensures target.Value() == (B96 * first + B64 * second + B32 * third + fourth) % B128
  {
    hide ShlMod, Shr, AddMod;
    Shl32(first);
    Shl32(third);
    Shr32(third);
    var tmp := new U128(ShlW(first, 32), 0);
    var tmp2 := new U128(ShrW(third, 32), ShlW(third, 32));
    Add128(tmp, tmp2, target);
    tmp.upper, tmp.lower := second, 0;
    Add128(tmp, target, tmp2);
    tmp.upper, tmp.lower := 0, fourth;
    Add128(tmp, tmp2, target);
    ColumnSum(first, second, third, fourth);
  }

  lemma ColumnSum(first: u64, second: u64, third: u64, fourth: u64)
    ensures AddMod(fourth, AddMod(second * B64, AddMod(first % B32 * B96, third * B32, B128), B128), B128)
         == (B96 * first + B64 * second + B32 * third + fourth) % B128
  {
    var s1 := first % B32 * B96 + third * B32;
    var s2 := second * B64 + s1 % B128;
    DropMultiple(first / B32, first % B32 * B96 + third * B32 + second * B64 + fourth,
                 B96 * first + B64 * second + B32 * third + fourth, B128);
    DropMultiple(-(s1 / B128) - s2 / B128, first % B32 * B96 + third * B32 + second * B64 + fourth,
                 fourth + s2 % B128, B128);
  }

  function Lo32(n: u64): (r: u64)
    ensures r < B32 && r == Lo(n, B32)
  {
    n % B32
  }

  function Hi32(n: u64): (r: u64)
    ensures r < B32 && r == Hi(n, B32)
  {
    n / B32
  }

  /** The column sums of mul128; none of them exceeds a machine word. */
  method SumColumns32(products: array2<u64>, ghost p: Partials) returns (c: Columns)
    requires products.Length0 == 4 && products.Length1 == 4
    requires products[0, 0] == p.n00 && products[0, 1] == p.n01 && products[0, 2] == p.n02 && products[0, 3] == p.n03
    requires products[1, 1] == p.n11 && products[1, 2] == p.n12 && products[1, 3] == p.n13
    requires products[2, 2] == p.n22 && products[2, 3] == p.n23 && products[3, 3] == p.n33
    ensures c == ColumnsOf(p, B32)
    ensures c.first < B64 && c.second < B64 && c.third < B64 && c.fourth < B64
  {
    hide Lo, Hi, Lo32, Hi32;
    var fourth: u64 := Lo32(products[0, 3]);
    var third: u64 := Lo32(products[0, 2]) + Hi32(products[0, 3]);
    var second: u64 := Lo32(products[0, 1]) + Hi32(products[0, 2]);
    var first: u64 := Lo32(products[0, 0]) + Hi32(products[0, 1]);
    third := third + Lo32(products[1, 3]);
    second := second + (Lo32(products[1, 2]) + Hi32(products[1, 3]));
    first := first + (Lo32(products[1, 1]) + Hi32(products[1, 2]));
    second := second + Lo32(products[2, 3]);
    first := first + (Lo32(products[2, 2]) + Hi32(products[2, 3]));
    first := first + Lo32(products[3, 3]);
    c := Columns(first, second, third, fourth);
  }

  method Mul128(number1: U128, number2: U128, target: U128)
    modifies target
    ensures target.Value() == MulMod(old(number1.Value()), old(number2.Value()), B128)
  {
    hide Times, MulMod, ColumnsOf, Words32, Words.In32;
    ghost var a, b := Words32(number1.upper, number1.lower), Words32(number2.upper, number2.lower);
    Product128(a, b);
    var top := Words32Array(number1);
    var bottom := Words32Array(number2);
    var products := Products32(top, bottom);
    var c := SumColumns32(products, PartialsOf(a, b));
    AddColumns32(c.first, c.second, c.third, c.fourth, target);
  }

  method Words32Array(number: U128) returns (words: array<u64>)
    ensures fresh(words) && words.Length == 4
    ensures Words(words[0], words[1], words[2], words[3]) == Words32(number.upper, number.lower)
  {
    words := new u64[4];
    words[0], words[1] := number.upper / B32, number.upper % B32;
    words[2], words[3] := number.lower / B32, number.lower % B32;
  }

  // ---- mul256 ------------------------------------------------------------------------

  /** A 128-bit number stored by value, as the products table holds it. */
  datatype Limbs = Limbs(upper: u64, lower: u64) {
    function Num(): (n: nat) ensures n < B128 { upper * B64 + lower }
  }

  /** The limbs of a number below 2^256, most significant first. */
  function Words64(x: nat): (r: Words)
    requires x < B256
    ensures r.w0 < B64 && r.w1 < B64 && r.w2 < B64 && r.w3 < B64
    ensures r.In64() == x
  {
    var upper, lower := x / B128, x % B128;
    Words(upper / B64, upper % B64, lower / B64, lower % B64)
  }

  /** The carry out of the code's third64 column, which line 444 adds at weight 2^192 instead of 2^128. */
  ghost function MulCarry(x: nat, y: nat): (c: nat)
    requires x < B256 && y < B256
    ensures c <= 2
  {
    Product64(Words64(x).w3, Words64(y).w3);
    ColumnsOf(PartialsOf(Words64(x), Words64(y)), B64).third / B64
  }

  lemma Product64(x: nat, y: nat)
    requires x < B64 && y < B64
    ensures Times(x, y) < B128
  {
    MulMono(x, y, B64 - 1);
    MulMono(B64 - 1, x, B64 - 1);
  }

  /** mul256 as coded: the product, with the misplaced carry. */
  ghost function Mul256Result(x: nat, y: nat): (r: nat)
    requires x < B256 && y < B256
  {
    (Times(x, y) + MulCarry(x, y) * (B192 - B128)) % B256
  }

  /** The sum of the columns at the weights the code gives them. */
  ghost function PlacedColumns(c: Columns): nat {
    c.first % B64 * B192 + c.third / B64 * B192 + c.second * B128 + c.third % B64 * B64 + c.fourth
  }

  lemma Product256(x: nat, y: nat)
    requires x < B256 && y < B256
    ensures PlacedColumns(ColumnsOf(PartialsOf(Words64(x), Words64(y)), B64)) % B256 == Mul256Result(x, y)
  {
    hide Words64, Times;
    var a, b := Words64(x), Words64(y);
    var p := PartialsOf(a, b);
    var c := ColumnsOf(p, B64);
    Expand64(a, b);
    PlaceSum(p, High(a, b, B64), c, x * y);
  }

  lemma PlaceSum(p: Partials, high: int, c: Columns, product: int)
    requires c == ColumnsOf(p, B64) && product == B256 * high + Sum64(p)
    ensures PlacedColumns(c) % B256 == (product + c.third / B64 * (B192 - B128)) % B256
  {
    hide ColumnsOf;
    Columns64(p);
    var k := high + (p.n00 / B64 + p.n11 / B64 + p.n22 / B64 + p.n33 / B64) + c.first / B64;
    DropMultiple(k, PlacedColumns(c), product + c.third / B64 * (B192 - B128), B256);
  }

  /** The products table: mul128 applied to every pair of limbs. */
  method Products64(top: array<u64>, bottom: array<u64>) returns (products: array2<Limbs>)
    requires top.Length == 4 && bottom.Length == 4
    ensures fresh(products) && products.Length0 == 4 && products.Length1 == 4
    ensures forall i, j :: 0 <= i < 4 && 0 <= j < 4 ==> products[i, j].Num() == Times(top[3 - i], bottom[j])
  {
    hide Times, MulMod, Limbs.Num;
    products := new Limbs[4, 4];
    var y := 3;
    while y > -1
      invariant -1 <= y <= 3
      invariant forall i, j :: 0 <= i < 4 && y < j < 4 ==> products[i, j].Num() == Times(top[3 - i], bottom[j])
    {
      var x := 3;
      while x > -1
        invariant -1 <= x <= 3
        invariant forall i, j :: 0 <= i < 4 && y < j < 4 ==> products[i, j].Num() == Times(top[3 - i], bottom[j])
        invariant forall i :: 0 <= i < 3 - x ==> products[i, y].Num() == Times(top[3 - i], bottom[y])
      {
        var product := LimbProduct(top[x], bottom[y]);
        products[3 - x, y] := product;
        x := x - 1;
      }
      y := y - 1;
    }
  }

  /** mul128 of two limbs widened to 128 bits. */
  method LimbProduct(t: u64, b: u64) returns (product: Limbs)
    ensures product.Num() == Times(t, b)
  {
    hide MulMod, Times;
    var wideT := new U128(0, t);
    var wideB := new U128(0, b);
    var result := new U128(0, 0);
    Mul128(wideT, wideB, result);
    SmallProduct(t, b);
    product := Limbs(result.upper, result.lower);
  }

  lemma SmallProduct(t: u64, b: u64)
    ensures MulMod(t, b, B128) == Times(t, b)
  {
    Product64(t, b);
    DivUnique(t * b, B128, 0, t * b);
  }

  /** Adds one limb to a column, through the temporaries of the code. */
  method AddLimb(limb: u64, column: U128)
    requires column.Value() + limb < B128
    modifies column
    ensures column.Value() == old(column.Value()) + limb
  {
    hide AddMod;
    AddSmall(limb, column.Value(), B128);
    var tmp := new U128(0, limb);
    var tmp2 := new U128(0, 0);
    Add128(tmp, column, tmp2);
    Copy128(column, tmp2);
  }

  /** What the products table holds: the code's entry [i][y] is the partial product n_iy. */
  ghost predicate Holds(products: array2<Limbs>, p: Partials)
    reads products
  {
    && products.Length0 == 4 && products.Length1 == 4
    && products[0, 0].Num() == p.n00 && products[0, 1].Num() == p.n01
    && products[0, 2].Num() == p.n02 && products[0, 3].Num() == p.n03
    && products[1, 1].Num() == p.n11 && products[1, 2].Num() == p.n12 && products[1, 3].Num() == p.n13
    && products[2, 2].Num() == p.n22 && products[2, 3].Num() == p.n23 && products[3, 3].Num() == p.n33
  }

  lemma LimbsOf(v: Limbs)
    ensures v.upper == Hi(v.Num(), B64) && v.lower == Lo(v.Num(), B64)
  {
  }

  lemma LimbsOfAll()
    ensures forall v: Limbs :: v.upper == Hi(v.Num(), B64) && v.lower == Lo(v.Num(), B64)
  {
    forall v: Limbs ensures v.upper == Hi(v.Num(), B64) && v.lower == Lo(v.Num(), B64) {
      LimbsOf(v);
    }
  }

  method ThirdColumn(products: array2<Limbs>, ghost p: Partials) returns (third64: U128)
    requires Holds(products, p)
    ensures fresh(third64) && third64.Value() == ColumnsOf(p, B64).third
  {
    hide Lo, Hi, Limbs.Num;
    LimbsOfAll();
    third64 := new U128(0, products[0, 2].lower);
    AddLimb(products[0, 3].upper, third64);
    AddLimb(products[1, 3].lower, third64);
  }

  method SecondColumn(products: array2<Limbs>, ghost p: Partials) returns (second64: U128)
    requires Holds(products, p)
    ensures fresh(second64) && second64.Value() == ColumnsOf(p, B64).second
  {
    hide Lo, Hi, Limbs.Num;
    LimbsOfAll();
    second64 := new U128(0, products[0, 1].lower);
    AddLimb(products[0, 2].upper, second64);
    AddLimb(products[1, 2].lower, second64);
    AddLimb(products[1, 3].upper, second64);
    AddLimb(products[2, 3].lower, second64);
  }

  method FirstColumn(products: array2<Limbs>, ghost p: Partials) returns (first64: U128)
    requires Holds(products, p)
    ensures fresh(first64) && first64.Value() == ColumnsOf(p, B64).first
  {
    hide Lo, Hi, Limbs.Num;
    LimbsOfAll();
    first64 := new U128(0, products[0, 0].lower);
    AddLimb(products[0, 1].upper, first64);
    AddLimb(products[1, 1].lower, first64);
    AddLimb(products[1, 2].upper, first64);
    AddLimb(products[2, 2].lower, first64);
    AddLimb(products[2, 3].upper, first64);
    AddLimb(products[3, 3].lower, first64);
  }

  lemma ShiftLimbUp(u: u64, l: u64)
    ensures ShlMod(u * B64 + l, 64, B128) == l * B64
  {
    Shl128Mid(u, l);
  }

  /** The first addition at the end of mul256, with the carry of third64 in the top limb of target2. */
  method PlaceOuter(first64: U128, third64: U128, target: U256)
    requires target.Valid() && {first64, third64} !! {target.upper, target.lower}
    modifies target.upper, target.lower
    ensures target.Value() == AddMod(first64.Value() % B64 * B192,
                                     third64.Value() / B64 * B192 + third64.Value() % B64 * B64, B256)
  {
    hide ShlMod, AddMod, U256.Value;
    ghost var f, c, t := first64.lower, third64.upper, third64.lower;
    LimbParts(first64.upper, f);
    LimbParts(c, t);
    ShiftLimbUp(first64.upper, f);
    ShiftLimbUp(c, t);
    var target1 := new U256(0, 0, 0, 0);
    var target2 := new U256(third64.upper, 0, 0, 0);
    ShiftL128(first64, 64, target1.upper);
    ShiftL128(third64, 64, target2.lower);
    Halves(target1, f * B64, 0);
    Halves(target2, c * B64, t * B64);
    Add256(target1, target2, target);
  }

  lemma LimbParts(u: u64, l: u64)
    ensures (u * B64 + l) / B64 == u && (u * B64 + l) % B64 == l
  {
  }

  lemma Halves(x: U256, u: nat, l: nat)
    requires x.upper.Value() == u && x.lower.Value() == l
    ensures x.Value() == u * B128 + l
  {
  }

  /** The additions of second64 at the upper half and of fourth64 in the lowest limb. */
  method AddUpper(second64: U128, source: U256, target: U256)
    requires Apart(source, target)
    modifies target.upper, target.lower
    ensures target.Value() == AddMod(old(second64.Value()) * B128, old(source.Value()), B256)
  {
    hide AddMod;
    var target1 := new U256(0, 0, 0, 0);
    Copy128(target1.upper, second64);
    Add256(target1, source, target);
  }

  method AddLowest(fourth: u64, source: U256, target: U256)
    requires Apart(source, target)
    modifies target.upper, target.lower
    ensures target.Value() == AddMod(fourth, old(source.Value()), B256)
  {
    hide AddMod;
    var target1 := new U256(0, 0, 0, fourth);
    Add256(target1, source, target);
  }

  method PlaceColumns(first64: U128, second64: U128, third64: U128, fourth: u64, target: U256)
    requires target.Valid() && {first64, second64, third64} !! {target.upper, target.lower}
    modifies target.upper, target.lower
    ensures target.Value() ==
      old(PlacedColumns(Columns(first64.Value(), second64.Value(), third64.Value(), fourth))) % B256
  {
    hide AddMod, PlacedColumns;
    ghost var c := Columns(first64.Value(), second64.Value(), third64.Value(), fourth);
    var target2 := new U256(0, 0, 0, 0);
    PlaceOuter(first64, third64, target);
    ghost var s1 := target.Value();
    AddUpper(second64, target, target2);
    ghost var s2 := target2.Value();
    AddLowest(fourth, target2, target);
    PlacedSum(c, s1, s2);
  }

  lemma PlacedSum(c: Columns, s1: nat, s2: nat)
    requires c.first < B128 && c.second < B128 && c.third < B128 && c.fourth < B64
    requires s1 == AddMod(c.first % B64 * B192, c.third / B64 * B192 + c.third % B64 * B64, B256)
    requires s2 == AddMod(c.second * B128, s1, B256)
    ensures AddMod(c.fourth, s2, B256) == PlacedColumns(c) % B256
  {
    var t1 := c.first % B64 * B192 + (c.third / B64 * B192 + c.third % B64 * B64);
    var t2 := c.second * B128 + s1;
    DropMultiple(-(t1 / B256) - t2 / B256, PlacedColumns(c), c.fourth + s2, B256);
  }

  method Mul256(number1: U256, number2: U256, target: U256)
    requires target.Valid()
    modifies target.upper, target.lower
    ensures target.Value() == Mul256Result(old(number1.Value()), old(number2.Value()))
  {
    hide Times, Lo, Hi, Words64, PlacedColumns, Mul256Result, Limbs.Num;
    ghost var x, y := number1.Value(), number2.Value();
    ghost var p := PartialsOf(Words64(x), Words64(y));
    Product256(x, y);
    var top := Words64Array(number1);
    var bottom := Words64Array(number2);
    var products := Products64(top, bottom);
    assert Holds(products, p);
    var third64 := ThirdColumn(products, p);
    var second64 := SecondColumn(products, p);
    var first64 := FirstColumn(products, p);
    LimbsOf(products[0, 3]);
    PlaceColumns(first64, second64, third64, products[0, 3].lower, target);
  }

  method Words64Array(number: U256) returns (words: array<u64>)
    ensures fresh(words) && words.Length == 4
    ensures Words(words[0], words[1], words[2], words[3]) == Words64(number.Value())
  {
    words := new u64[4];
    words[0], words[1] := number.upper.upper, number.upper.lower;
    words[2], words[3] := number.lower.upper, number.lower.lower;
  }

  // ---- When mul256 is multiplication -------------------------------------------------

  /** mul256 is multiplication modulo 2^256 exactly when third64 does not carry. */
  lemma Mul256CorrectIff(x: nat, y: nat)
    requires x < B256 && y < B256
    ensures Mul256Result(x, y) == MulMod(x, y, B256) <==> MulCarry(x, y) == 0
  {
    hide MulCarry;
    var c := MulCarry(x, y);
    var xy := Times(x, y);
    if c > 0 {
      var r, s := xy % B256, (xy + c * (B192 - B128)) % B256;
      assert r != s;
    }
  }

  /** Operands of one limb never carry, whatever the other operand's high half is. */
  lemma Mul256OfSmall(x: nat, y: nat)
    requires x < B64 && y < B64
    ensures MulCarry(x, y) == 0 && Mul256Result(x, y) == x * y
  {
    Product64(x, y);
    assert Words64(x).w2 == 0 && Words64(y).w2 == 0;
    assert Words64(x).w3 == x && Words64(y).w3 == y;
    DivUnique(x * y, B256, 0, x * y);
  }

  /** An input on which the misplaced carry shows: (2^128 - 1) squared. */
  lemma Mul256Wrong()
    ensures MulCarry(B128 - 1, B128 - 1) == 1
    ensures Mul256Result(B128 - 1, B128 - 1) != MulMod(B128 - 1, B128 - 1, B256)
  {
    hide Words64;
    var m := B64 - 1;
    LowWords(m, m);
    var p := PartialsOf(Words(0, 0, m, m), Words(0, 0, m, m));
    assert Times(m, m) == (B64 - 2) * B64 + 1;
    LimbParts(B64 - 2, 1);
    assert ColumnsOf(p, B64).third == B64;
    Mul256CorrectIff(B128 - 1, B128 - 1);
  }

  lemma LowWords(u: u64, l: u64)
    ensures Words64(u * B64 + l) == Words(0, 0, u, l)
  {
  }
}
