/** Shifts of a two-limb number, in terms of shifts of its limbs.
    W is the limb modulus and P * Q == W, so a shift by P moves the top log2(P) bits of a limb across. */
module Shifting {
  import opened Bits

  /** Multiplying a limb by P: what stays in the limb and what is carried out. */
  lemma LimbTimes(l: nat, P: nat, Q: nat, W: nat)
    requires P > 0 && Q > 0 && P * Q == W && l < W
    ensures l * P == (l / Q) * W + (l % Q) * P
    ensures (l % Q) * P <= W - P
    ensures l * P % W == (l % Q) * P
    ensures l / Q < P
  {
    var h, r := l / Q, l % Q;
    assert l == Q * h + r;
    assert l * P == h * (P * Q) + r * P by {
      assert (Q * h) * P == h * (P * Q);
    }
    MulLe(r, Q - 1, P);
    assert (Q - 1) * P == P * Q - P;
    assert r * P >= 0;
    DivUnique(l * P, W, h, r * P);
    if h >= P {
      MulLe(P, h, Q);
      assert false;
    }
  }

  lemma MulSwap(x: int, y: int, z: int)
    ensures x * (y * z) == y * (x * z)
  {
  }

  lemma MulAdd(x: int, y: int, z: int)
    ensures x * (y + z) == x * y + x * z
  {
  }

  lemma MulLe(a: nat, b: nat, c: nat)
    requires a <= b
    ensures 0 <= a * c <= b * c
  {
    MulMono(c, a, b);
  }

  lemma ShlPair(u: nat, l: nat, P: nat, Q: nat, W: nat)
    requires P > 0 && Q > 0 && P * Q == W && u < W && l < W
    ensures 0 <= u * P % W + l / Q < W
    ensures W * W > 0 && (u * W + l) * P % (W * W) == (u * P % W + l / Q) * W + l * P % W
  {
    LimbTimes(u, P, Q, W);
    LimbTimes(l, P, Q, W);
    ShlCombine(u, l, u / Q, u % Q * P, l / Q, l % Q * P, P, W);
  }

  lemma ShlCombine(u: nat, l: nat, a: nat, b: nat, d: nat, e: nat, P: nat, W: nat)
    requires u * P == a * W + b && l * P == d * W + e && b + d < W && e < W
    ensures W * W > 0 && (u * W + l) * P % (W * W) == (b + d) * W + e
  {
    ShlIdentity(u, l, a, b, d, e, P, W);
    TwoLimbs(b + d, e, W);
    DivUnique((u * W + l) * P, W * W, a, (b + d) * W + e);
  }

  lemma ShlIdentity(u: int, l: int, a: int, b: int, d: int, e: int, P: int, W: int)
    requires u * P == a * W + b && l * P == d * W + e
    ensures (u * W + l) * P == (W * W) * a + ((b + d) * W + e)
  {
    calc {
      (u * W + l) * P;
      (u * P) * W + l * P;
      (a * W + b) * W + (d * W + e);
      (W * W) * a + ((b + d) * W + e);
    }
  }

  lemma TwoLimbs(u: nat, l: nat, W: nat)
    requires u < W && l < W
    ensures 0 <= u * W + l < W * W
  {
    MulLe(u, W - 1, W);
    assert (W - 1) * W == W * W - W;
  }

  lemma DivBelow(l: nat, P: nat, Q: nat)
    requires P > 0 && l < P * Q
    ensures 0 <= l / P < Q
  {
    var q := l / P;
    assert l == P * q + l % P;
    if q >= Q {
      MulMono(P, Q, q);
    }
  }

  lemma ShrPair(u: nat, l: nat, P: nat, Q: nat, W: nat)
    requires W > 0 && P > 0 && Q > 0 && P * Q == W && u < W && l < W
    ensures 0 <= u * Q % W + l / P < W
    ensures (u * W + l) / P == (u / P) * W + (u * Q % W + l / P)
  {
    MulNonneg(u, Q);
    var a, b, d := u / P, u * Q % W, l / P;
    assert u * Q == a * W + b && 0 <= b <= W - Q by { LimbTimes(u, Q, P, W); }
    DivBelow(l, P, Q);
    ShrCombine(u, l, a, b, d, l % P, P, Q, W);
  }

  lemma ShrCombine(u: nat, l: nat, a: nat, b: nat, d: nat, e: nat, P: nat, Q: nat, W: nat)
    requires W == P * Q && u * Q == a * W + b && l == P * d + e && e < P
    ensures (u * W + l) / P == a * W + (b + d)
  {
    MulSwap(u, P, Q);
    MulAdd(P, u * Q, d);
    DivUnique(u * W + l, P, u * Q + d, e);
  }

  /** Shifts that move a whole limb or more. */
  lemma ShlOver(u: nat, l: nat, P: nat, W: nat)
    requires P > 0 && W > 0 && u < W && l < W
    ensures W * W > 0 && (u * W + l) * (P * W) % (W * W) == (l * P % W) * W
  {
    MulLe(0, l, P);
    MulLe(0, u, P);
    var h, r := l * P / W, l * P % W;
    ShlOverIdentity(u, l, h, r, P, W);
    TwoLimbs(r, 0, W);
    DivUnique((u * W + l) * (P * W), W * W, u * P + h, r * W);
  }

  lemma ShlOverIdentity(u: int, l: int, h: int, r: int, P: int, W: int)
    requires l * P == W * h + r
    ensures (u * W + l) * (P * W) == (W * W) * (u * P + h) + r * W
  {
    calc {
      (u * W + l) * (P * W);
      (u * P) * (W * W) + (l * P) * W;
      (u * P) * (W * W) + (W * h + r) * W;
      (W * W) * (u * P + h) + r * W;
    }
  }

  lemma ShrOver(u: nat, l: nat, P: nat, W: nat)
    requires P > 0 && W > 0 && u < W && l < W
    ensures P * W > 0 && (u * W + l) / (P * W) == u / P
  {
    assert u * W >= 0;
    DivUnique(u * W + l, W, u, l) by {
      assert W * u == u * W;
    }
    assert W * P == P * W;
    DivDiv(u * W + l, W, P);
  }

  /** Shifts of the whole width or more leave nothing. */
  lemma ShlAll(x: nat, n: nat, k: nat)
    requires k >= n
    ensures x * Pow2(k) % Pow2(n) == 0
  {
    Pow2Add(n, k - n);
    var P, D := Pow2(n), Pow2(k - n);
    MulSwap(x, P, D);
    DivUnique(x * Pow2(k), P, x * D, 0);
  }

  lemma ShrAll(x: nat, n: nat, k: nat)
    requires k >= n && x < Pow2(n)
    ensures x / Pow2(k) == 0
  {
    Pow2Monotone(n, k);
    DivUnique(x, Pow2(k), 0, x);
  }
}
