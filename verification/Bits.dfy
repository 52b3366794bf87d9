/** Machine-word bounds, powers of two, bit lengths and the C bitwise operators on natural numbers. */
module Bits {
  const B8: nat := 0x100
  const B16: nat := 0x1_0000
  const B32: nat := 0x1_0000_0000
  const B64: nat := 0x1_0000_0000_0000_0000
  const B128: nat := 0x1_0000_0000_0000_0000_0000_0000_0000_0000
  const B192: nat := 0x1_0000_0000_0000_0000_0000_0000_0000_0000_0000_0000_0000_0000
  const B256: nat := 0x1_0000_0000_0000_0000_0000_0000_0000_0000_0000_0000_0000_0000_0000_0000_0000_0000

  type u8 = x: int | 0 <= x < 0x100
  type u32 = x: int | 0 <= x < 0x1_0000_0000
  type u64 = x: int | 0 <= x < 0x1_0000_0000_0000_0000

  function Pow2(k: nat): (p: nat)
    ensures p > 0
  {
    if k == 0 then 1 else 2 * Pow2(k - 1)
  }

  lemma MulAssoc(x: int, y: int, z: int)
    ensures (x * y) * z == x * (y * z)
  {
  }

  lemma {:induction false} Pow2Add(a: nat, b: nat)
    ensures Pow2(a + b) == Pow2(a) * Pow2(b)
  {
    if a > 0 {
      Pow2Add(a - 1, b);
      MulAssoc(2, Pow2(a - 1), Pow2(b));
    }
  }

  lemma {:induction false} Pow2Monotone(a: nat, b: nat)
    requires a <= b
    ensures Pow2(a) <= Pow2(b)
    decreases b
  {
    if a < b {
      Pow2Monotone(a, b - 1);
    }
  }

  lemma Pow2Square(k: nat, p: nat, k2: nat)
    requires Pow2(k) == p && k2 == k + k
    ensures Pow2(k2) == p * p
  {
    Pow2Add(k, k);
  }

  lemma Pow2At8()
    ensures Pow2(8) == B8
  {
  }

  lemma Pow2At16()
    ensures Pow2(16) == B16
  {
    Pow2At8();
    Pow2Square(8, B8, 16);
  }

  lemma Pow2At32()
    ensures Pow2(32) == B32
  {
    Pow2At16();
    Pow2Square(16, B16, 32);
  }

  lemma Pow2At64()
    ensures Pow2(64) == B64
  {
    Pow2At32();
    Pow2Square(32, B32, 64);
  }

  lemma Pow2At128()
    ensures Pow2(128) == B128
  {
    Pow2At64();
    Pow2Square(64, B64, 128);
  }

  lemma Pow2At256()
    ensures Pow2(256) == B256
  {
    Pow2At128();
    Pow2Square(128, B128, 256);
  }

  // ---- Modular arithmetic ------------------------------------------------------------

  lemma AddModIs(x: nat, y: nat, w: nat)
    requires x < w && y < w
    ensures AddMod(x, y, w) == if x + y < w then x + y else x + y - w
  {
    if x + y < w {
      DivUnique(x + y, w, 0, x + y);
    } else {
      DivUnique(x + y, w, 1, x + y - w);
    }
  }

  lemma SubModIs(x: nat, y: nat, w: nat)
    requires x < w && y < w
    ensures SubMod(x, y, w) == if x >= y then x - y else x - y + w
  {
    if x >= y {
      DivUnique(x - y, w, 0, x - y);
    } else {
      DivUnique(x - y, w, -1, x - y + w);
    }
  }

  function AddMod(x: nat, y: nat, w: nat): (r: nat)
    requires w > 0
    ensures r < w
  {
    (x + y) % w
  }

  function SubMod(x: nat, y: nat, w: nat): (r: nat)
    requires w > 0
    ensures r < w
  {
    (x - y) % w
  }

  function ShlMod(x: nat, k: nat, w: nat): (r: nat)
    requires w > 0
    ensures r < w
  {
    MulNonneg(x, Pow2(k));
    x * Pow2(k) % w
  }

  function Shr(x: nat, k: nat): (r: nat)
    ensures r <= x
  {
    DivLe(x, Pow2(k));
    x / Pow2(k)
  }

  lemma DivLe(a: nat, p: nat)
    requires p > 0
    ensures 0 <= a / p <= a
  {
    var q := a / p;
    assert a == p * q + a % p;
    if q > 0 {
      MulAtLeast(q, p);
    }
  }

  /** The number of significant bits: 0 for 0, else the k with 2^(k-1) <= n < 2^k. */
  function BitLen(n: nat): (k: nat)
    ensures n < Pow2(k)
    ensures n > 0 ==> k > 0 && Pow2(k - 1) <= n
  {
    if n == 0 then 0 else 1 + BitLen(n / 2)
  }

  lemma BitLenUnique(n: nat, k: nat)
    requires n < Pow2(k) && (k > 0 ==> Pow2(k - 1) <= n)
    ensures BitLen(n) == k
  {
    if k < BitLen(n) {
      Pow2Monotone(k, BitLen(n) - 1);
    } else if BitLen(n) < k {
      Pow2Monotone(BitLen(n), k - 1);
    }
  }

  // ---- Bitwise operators -------------------------------------------------------------

  /** The three binary bitwise operators of C. */
  datatype BitFn = AndFn | OrFn | XorFn {
    function OnBits(a: nat, b: nat): (r: nat)
      requires a < 2 && b < 2
      ensures r < 2
      ensures a == b == 0 ==> r == 0
    {
      match this
      case AndFn => if a == 1 && b == 1 then 1 else 0
      case OrFn => if a == 1 || b == 1 then 1 else 0
      case XorFn => if a != b then 1 else 0
    }
  }

  function Bitwise(fn: BitFn, x: nat, y: nat): (r: nat)
    decreases x + y
  {
    if x == 0 && y == 0 then 0
    else 2 * Bitwise(fn, x / 2, y / 2) + fn.OnBits(x % 2, y % 2)
  }

  function Bit(x: nat, i: nat): nat {
    x / Pow2(i) % 2
  }

  lemma {:induction false} BitShift(x: nat, i: nat)
    requires i > 0
    ensures Bit(x, i) == Bit(x / 2, i - 1)
  {
    DivDiv(x, 2, Pow2(i - 1));
  }

  lemma DivDiv(x: nat, a: nat, b: nat)
    requires a > 0 && b > 0
    ensures a * b > 0 && x / a / b == x / (a * b)
  {
    var q, r := x / a, x % a;
    DivDivAt(x, a, b, r, q / b, q % b);
  }

  lemma DivDivAt(x: nat, a: nat, b: nat, r: nat, q2: nat, r2: nat)
    requires r < a && r2 < b && x == a * (b * q2 + r2) + r
    ensures a * b > 0 && x / (a * b) == q2
  {
    calc {
      a * (b * q2 + r2);
      a * (b * q2) + a * r2;
      (a * b) * q2 + a * r2;
    }
    InnerRemainder(a, b, r, r2);
    DivUnique(x, a * b, q2, a * r2 + r);
  }

  lemma InnerRemainder(a: nat, b: nat, r: nat, r2: nat)
    requires r < a && r2 < b
    ensures 0 <= a * r2 + r < a * b
  {
    MulMono(a, r2, b - 1);
    assert a * (b - 1) == a * b - a;
  }

  lemma MulMono(a: nat, x: nat, y: nat)
    requires x <= y
    ensures 0 <= a * x <= a * y
  {
    MulNonneg(a, x);
    MulNonneg(a, y - x);
    assert a * y == a * x + a * (y - x);
  }

  lemma {:induction false} MulNonneg(a: nat, b: nat)
    ensures a * b >= 0
    decreases b
  {
    if b > 0 {
      MulNonneg(a, b - 1);
      assert a * b == a * (b - 1) + a;
    }
  }

  lemma {:induction false} MulAtLeast(d: int, k: int)
    requires d >= 0 && k >= 1
    ensures d * k >= d
    decreases k
  {
    if k > 1 {
      MulAtLeast(d, k - 1);
      assert d * k == d * (k - 1) + d;
    }
  }

  lemma NonzeroMultiple(d: int, k: int)
    requires d > 0
    ensures k > 0 ==> d * k >= d
    ensures k < 0 ==> d * k <= -d
  {
    if k > 0 {
      MulAtLeast(d, k);
    } else if k < 0 {
      MulAtLeast(d, -k);
      assert d * -k == -(d * k);
    }
  }

  lemma DivUnique(x: int, d: int, q: int, r: int)
    requires d > 0 && x == d * q + r && 0 <= r < d
    ensures x / d == q && x % d == r
  {
    var q', r' := x / d, x % d;
    assert x == d * q' + r';
    var k := q' - q;
    assert d * k == r - r';
    NonzeroMultiple(d, k);
  }

  /** Every bit of the result is the operator applied to the two operands' bits there. */
  lemma {:induction false} BitwiseBit(fn: BitFn, x: nat, y: nat, i: nat)
    ensures Bit(Bitwise(fn, x, y), i) == fn.OnBits(Bit(x, i), Bit(y, i))
    decreases i
  {
    if i == 0 {
      assert Pow2(0) == 1;
    } else {
      BitShift(x, i);
      BitShift(y, i);
      BitShift(Bitwise(fn, x, y), i);
      assert Bitwise(fn, x, y) / 2 == Bitwise(fn, x / 2, y / 2);
      BitwiseBit(fn, x / 2, y / 2, i - 1);
    }
  }

  function TimesPow2(h: nat, k: nat): (r: nat)
    ensures r == h * Pow2(k)
  {
    MulNonneg(h, Pow2(k));
    h * Pow2(k)
  }

  lemma TimesPow2Step(h: nat, k: nat)
    requires k > 0
    ensures TimesPow2(h, k) == 2 * TimesPow2(h, k - 1)
  {
    MulAssoc(2, Pow2(k - 1), h);
  }

  /** What the operators do to bit i. */
  lemma BitwiseMeans(x: nat, y: nat, i: nat)
    ensures Bit(Bitwise(AndFn, x, y), i) == 1 <==> Bit(x, i) == 1 && Bit(y, i) == 1
    ensures Bit(Bitwise(OrFn, x, y), i) == 1 <==> Bit(x, i) == 1 || Bit(y, i) == 1
    ensures Bit(Bitwise(XorFn, x, y), i) == 1 <==> Bit(x, i) != Bit(y, i)
  {
    hide Bitwise;
    BitwiseBit(AndFn, x, y, i);
    BitwiseBit(OrFn, x, y, i);
    BitwiseBit(XorFn, x, y, i);
  }

  /** A bitwise operator works on the low k bits and on the rest independently. */
  lemma {:induction false} BitwiseSplit(fn: BitFn, k: nat, x: nat, h: nat, y: nat, g: nat)
    requires x < Pow2(k) && y < Pow2(k)
    ensures Bitwise(fn, x, y) < Pow2(k)
    ensures Bitwise(fn, TimesPow2(h, k) + x, TimesPow2(g, k) + y) ==
      TimesPow2(Bitwise(fn, h, g), k) + Bitwise(fn, x, y)
    decreases k
  {
    hide TimesPow2, Bitwise;
    if k == 0 {
      assert Pow2(0) == 1;
      BitwiseZero(fn, 0);
    } else {
      var b := Bitwise(fn, h, g);
      BitwiseSplit(fn, k - 1, x / 2, h, y / 2, g);
      TimesPow2Step(h, k);
      TimesPow2Step(g, k);
      TimesPow2Step(b, k);
      BitwiseStep(fn, TimesPow2(h, k - 1), x, TimesPow2(g, k - 1), y, TimesPow2(b, k - 1));
    }
  }

  lemma {:induction false} BitwiseStep(fn: BitFn, hp: nat, x: nat, gp: nat, y: nat, r: nat)
    requires Bitwise(fn, hp + x / 2, gp + y / 2) == r + Bitwise(fn, x / 2, y / 2)
    ensures Bitwise(fn, 2 * hp + x, 2 * gp + y) == 2 * r + Bitwise(fn, x, y)
    ensures Bitwise(fn, x, y) <= 2 * Bitwise(fn, x / 2, y / 2) + 1
  {
    hide Bitwise;
    BitwiseUnfold(fn, 2 * hp + x, 2 * gp + y);
    BitwiseUnfold(fn, x, y);
    assert (2 * hp + x) / 2 == hp + x / 2 && (2 * gp + y) / 2 == gp + y / 2;
    assert (2 * hp + x) % 2 == x % 2 && (2 * gp + y) % 2 == y % 2;
  }

  lemma BitwiseUnfold(fn: BitFn, x: nat, y: nat)
    ensures Bitwise(fn, x, y) == 2 * Bitwise(fn, x / 2, y / 2) + fn.OnBits(x % 2, y % 2)
  {
  }

  lemma BitwiseZero(fn: BitFn, x: nat)
    ensures fn != AndFn ==> Bitwise(fn, x, 0) == x && Bitwise(fn, 0, x) == x
    ensures fn == AndFn ==> Bitwise(fn, x, 0) == 0 && Bitwise(fn, 0, x) == 0
  {
  }

  /** Masking with 2^k - 1 is reduction modulo 2^k. */
  lemma {:induction false} AndMask(x: nat, k: nat)
    ensures Bitwise(AndFn, x, Pow2(k) - 1) == x % Pow2(k)
    decreases k
  {
    hide Bitwise;
    if k == 0 {
      BitwiseZero(AndFn, x);
    } else {
      var p := Pow2(k - 1);
      AndMask(x / 2, k - 1);
      BitwiseUnfold(AndFn, x, 2 * p - 1);
      ModTwice(x, p);
    }
  }

  lemma ModTwice(x: nat, p: nat)
    requires p > 0
    ensures x % (2 * p) == 2 * (x / 2 % p) + x % 2
  {
    var h := x / 2;
    var q, r := h / p, h % p;
    assert h == p * q + r;
    MulAssoc(2, p, q);
    DivUnique(x, 2 * p, q, 2 * r + x % 2);
  }

  /** Or with a bit above all of which the other operand is empty is addition. */
  lemma {:induction false} OrPow2(x: nat, k: nat)
    requires x % Pow2(k + 1) == 0
    ensures Bitwise(OrFn, x, Pow2(k)) == x + Pow2(k)
  {
    hide Bitwise;
    var q := x / Pow2(k + 1);
    DivExact(x, Pow2(k + 1));
    BitwiseZero(OrFn, q);
    BitwiseZero(OrFn, Pow2(k));
    BitwiseSplit(OrFn, k + 1, 0, q, Pow2(k), 0);
  }

  lemma DivExact(x: nat, p: nat)
    requires p > 0 && x % p == 0
    ensures x == (x / p) * p
  {
  }
}
