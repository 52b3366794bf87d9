/** trickle-timer.c: the Trickle algorithm of RFC 6206 on a clock of W bits. */
module Trickle {
  import opened Bits

  // ---- The largest number of doublings -------------------------------------------------

  /** The widths of clock_time_t that the library is written for. */
  predicate ClockWidth(W: nat) {
    W == 16 || W == 32
  }

  /** The mask before the step for i; the step shifts it left by i. */
  predicate MaskBefore(W: nat, i: nat, mask: nat) {
    match i
    case 16 => W == 32 && mask == 0xFFFF
    case 8 => mask == if W == 32 then 0xFFFF_0000 else 0xFFFF
    case 4 => mask == if W == 32 then 0xFF00_0000 else 0xFF00
    case 2 => mask == if W == 32 then 0xF000_0000 else 0xF000
    case 1 => mask == if W == 32 then 0xC000_0000 else 0xC000
    case _ => i == 0 && mask == if W == 32 then 0x8000_0000 else 0x8000
  }

  lemma SmallPowers()
    ensures Pow2(0) == 1 && Pow2(1) == 2 && Pow2(2) == 4 && Pow2(4) == 16
    ensures Pow2(8) == 256 && Pow2(16) == 0x1_0000 && Pow2(32) == B32
  {
    Pow2At8();
    Pow2At16();
    Pow2At32();
  }

  lemma MaskNext(W: nat, i: nat, mask: nat)
    requires ClockWidth(W) && MaskBefore(W, i, mask) && i > 0
    ensures MaskBefore(W, i / 2, ShlMod(mask, i, Pow2(W)))
    ensures W >= i && ShlMod(mask, i, Pow2(W)) == Pow2(W) - Pow2(W - i)
  {
    hide Pow2;
    SmallPowers();
    if W == 32 {
      HighPowers();
    } else {
      MiddlePowers();
    }
  }

  lemma MiddlePowers()
    ensures Pow2(12) == 0x1000 && Pow2(14) == 0x4000 && Pow2(15) == 0x8000
  {
    Pow2At8();
    Pow2Add(8, 4);
    assert Pow2(4) == 16;
    assert Pow2(14) == 4 * Pow2(12);
    assert Pow2(15) == 2 * Pow2(14);
  }

  lemma HighPowers()
    ensures Pow2(24) == 0x100_0000 && Pow2(28) == 0x1000_0000 && Pow2(30) == 0x4000_0000 && Pow2(31) == 0x8000_0000
  {
    SmallPowers();
    MiddlePowers();
    hide Pow2;
    Pow2Add(16, 8);
    Pow2Add(16, 12);
    Pow2Add(16, 14);
    Pow2Add(16, 15);
  }

  /** value & mask is zero when the top i bits of value are. */
  lemma TopBits(value: nat, W: nat, i: nat)
    requires i <= W && value < Pow2(W)
    ensures Pow2(W) - Pow2(W - i) >= 0
    ensures Bitwise(AndFn, value, Pow2(W) - Pow2(W - i)) == 0 <==> value < Pow2(W - i)
  {
    hide Bitwise, Pow2;
    var k := W - i;
    var p := Pow2(k);
    var h, l := value / p, value % p;
    Pow2Monotone(k, W);
    Pow2Add(i, k);
    assert value == p * h + l;
    assert Pow2(W) - p == TimesPow2(Pow2(i) - 1, k) by {
      assert (Pow2(i) - 1) * p == Pow2(i) * p - p;
    }
    assert value == TimesPow2(h, k) + l;
    BitwiseSplit(AndFn, k, l, h, 0, Pow2(i) - 1);
    BitwiseZero(AndFn, l);
    AndMask(h, i);
    QuotientBelow(h, p, l, Pow2(i));
    DivUnique(h, Pow2(i), 0, h);
    ZeroTimes(h, p);
  }

  lemma QuotientBelow(h: nat, p: nat, l: nat, m: nat)
    requires p > 0 && p * h + l < m * p
    ensures h < m
  {
    if h >= m {
      MulMono(p, m, h);
    }
  }

  lemma ZeroTimes(h: nat, p: nat)
    requires p > 0
    ensures h * p == 0 <==> h == 0
    ensures h > 0 ==> p * h >= p
  {
    if h > 0 {
      MulAtLeast(p, h);
    }
  }

  /** A variant of counting leading zeros, by halving steps, in the generic flavour. */
  method MaxImax(W: nat, iMin: nat) returns (r: nat)
    requires ClockWidth(W) && 2 <= iMin <= Pow2(W - 1) - 1
    ensures BitLen(iMin - 1) < W && r == W - BitLen(iMin - 1) - 1
  {
    hide Bitwise, Pow2, ShlMod, BitLen, MaskBefore;
    ghost var v0 := iMin - 1;
    Pow2Monotone(W - 1, W);
    MaskStart(W);
    assert Pow2(0) == 1 by { SmallPowers(); }
    var zeros, mask, value := 0, 0xFFFF, iMin - 1;
    var i := W / 2;
    assert TimesPow2(v0, 0) == v0;
    while i > 0
      invariant i == 16 || i == 8 || i == 4 || i == 2 || i == 1 || i == 0
      invariant i <= W / 2 && MaskBefore(W, i, mask)
      invariant value == TimesPow2(v0, zeros) && value < Pow2(W)
      invariant Pow2(if i == 0 then W - 1 else W - 2 * i) <= value
      decreases i
    {
      MaskNext(W, i, mask);
      mask := ShlMod(mask, i, Pow2(W));
      TopBits(value, W, i);
      if Bitwise(AndFn, value, mask) == 0 {
        ShiftKeeps(v0, zeros, value, W, i);
        zeros := zeros + i;
        value := ShlMod(value, i, Pow2(W));
      }
      i := i / 2;
    }
    LeadingZeros(v0, zeros, W);
    r := zeros - 1;
  }

  lemma MaskStart(W: nat)
    requires ClockWidth(W)
    ensures MaskBefore(W, W / 2, 0xFFFF)
  {
  }

  /** value <<= i, when the top i bits are zero. */
  lemma ShiftKeeps(v0: nat, zeros: nat, value: nat, W: nat, i: nat)
    requires 0 < i && 2 * i <= W && value == TimesPow2(v0, zeros)
    requires Pow2(W - 2 * i) <= value < Pow2(W - i)
    ensures ShlMod(value, i, Pow2(W)) == TimesPow2(v0, zeros + i)
    ensures Pow2(W - i) <= ShlMod(value, i, Pow2(W)) < Pow2(W)
  {
    hide Pow2;
    Pow2Add(zeros, i);
    MulAssoc(v0, Pow2(zeros), Pow2(i));
    Pow2Add(W - i, i);
    Pow2Add(W - 2 * i, i);
    MulMono(Pow2(i), Pow2(W - 2 * i), value);
    MulMono(Pow2(i), value, Pow2(W - i) - 1);
    assert Pow2(i) * (Pow2(W - i) - 1) == Pow2(W) - Pow2(i);
    DivUnique(value * Pow2(i), Pow2(W), 0, value * Pow2(i));
  }

  lemma LeadingZeros(v: nat, zeros: nat, W: nat)
    requires W >= 1 && 0 < v < Pow2(W - 1)
    requires Pow2(W - 1) <= TimesPow2(v, zeros) < Pow2(W)
    ensures BitLen(v) == W - zeros && 1 <= zeros < W
  {
    hide Pow2, BitLen, TimesPow2;
    if zeros == 0 {
      TimesOne(v);
    } else if zeros >= W {
      ScaledAtLeast(v, zeros, W, 0);
    } else {
      if v >= Pow2(W - zeros) {
        ScaledAtLeast(v, zeros, W, W - zeros);
      }
      if v < Pow2(W - 1 - zeros) {
        ScaledBelow(v, zeros, W - 1 - zeros);
      }
      BitLenUnique(v, W - zeros);
    }
  }

  lemma TimesOne(v: nat)
    ensures TimesPow2(v, 0) == v
  {
    assert Pow2(0) == 1;
  }

  lemma ScaledAtLeast(v: nat, zeros: nat, W: nat, k: nat)
    requires v >= 1 && zeros + k >= W && (k == 0 || v >= Pow2(k))
    ensures TimesPow2(v, zeros) >= Pow2(W)
  {
    hide Pow2;
    Pow2Monotone(W, zeros + k);
    Pow2Add(k, zeros);
    if k == 0 {
      MulAtLeast(Pow2(zeros), v);
    } else {
      MulMono(Pow2(zeros), Pow2(k), v);
    }
  }

  lemma ScaledBelow(v: nat, zeros: nat, k: nat)
    requires v < Pow2(k)
    ensures TimesPow2(v, zeros) < Pow2(k + zeros)
  {
    hide Pow2;
    Pow2Add(k, zeros);
    MulMono(Pow2(zeros), v, Pow2(k) - 1);
    assert Pow2(zeros) * (Pow2(k) - 1) == Pow2(k + zeros) - Pow2(zeros);
  }

  /** iMin << m. */
  function Interval(iMin: nat, m: nat): nat {
    TimesPow2(iMin, m)
  }

  /** That is the largest number of doublings for which the largest interval is at most half the clock's range. */
  lemma MaxImaxIsLargest(W: nat, iMin: nat, m: nat)
    requires W >= 1 && 2 <= iMin <= Pow2(W - 1)
    ensures BitLen(iMin - 1) < W
    ensures m <= W - BitLen(iMin - 1) - 1 <==> Interval(iMin, m) <= Pow2(W - 1)
  {
    hide Pow2, BitLen, TimesPow2;
    var b := BitLen(iMin - 1);
    if b >= W {
      Pow2Monotone(W - 1, b - 1);
    }
    if m <= W - 1 - b {
      IntervalAtMost(W, iMin, b, m);
    } else {
      IntervalAbove(W, iMin, b, m);
    }
  }

  lemma IntervalAtMost(W: nat, iMin: nat, b: nat, m: nat)
    requires iMin <= Pow2(b) && b + m + 1 <= W
    ensures Interval(iMin, m) <= Pow2(W - 1)
  {
    hide Pow2;
    Pow2Monotone(b + m, W - 1);
    Pow2Add(b, m);
    MulMono(Pow2(m), iMin, Pow2(b));
  }

  lemma IntervalAbove(W: nat, iMin: nat, b: nat, m: nat)
    requires b > 0 && iMin > Pow2(b - 1) && W >= 1 && b + m >= W
    ensures Interval(iMin, m) > Pow2(W - 1)
  {
    hide Pow2;
    Pow2Monotone(W - 1, b - 1 + m);
    Pow2Add(b - 1, m);
    MulMono(Pow2(m), Pow2(b - 1) + 1, iMin);
    assert Pow2(m) * (Pow2(b - 1) + 1) == Pow2(b - 1 + m) + Pow2(m);
  }

  /** TRICKLE_TIMER_IPAIR_IS_BAD says exactly that iMin << iMax exceeds half the clock's range. */
  lemma PairTest(W: nat, iMin: nat, iMax: nat)
    requires iMin >= 1 && iMax + 1 < W
    ensures Shr(Pow2(W) - 1, iMax + 1) < iMin - 1 <==> Interval(iMin, iMax) > Pow2(W - 1)
  {
    hide Pow2;
    var k := W - 1 - iMax;
    var d := Pow2(iMax + 1);
    Pow2Add(k, iMax + 1);
    Pow2Add(k, iMax);
    assert Pow2(W) - 1 == d * (Pow2(k) - 1) + (d - 1);
    DivUnique(Pow2(W) - 1, d, Pow2(k) - 1, d - 1);
    if iMin <= Pow2(k) {
      MulMono(Pow2(iMax), iMin, Pow2(k));
    } else {
      MulMono(Pow2(iMax), Pow2(k) + 1, iMin);
      assert Pow2(iMax) * (Pow2(k) + 1) == Pow2(W - 1) + Pow2(iMax);
    }
  }

  // ---- Doubling ------------------------------------------------------------------------

  function Min(x: nat, y: nat): nat {
    if x <= y then x else y
  }

  /** The interval after n doublings that no inconsistency interrupts. */
  function After(n: nat, I: nat, top: nat): nat {
    if n == 0 then I else Min(2 * After(n - 1, I, top), top)
  }

  /** n doublings multiply the interval by 2^n, up to the largest one. */
  lemma {:induction false} AfterIs(n: nat, I: nat, top: nat)
    requires I <= top
    ensures After(n, I, top) == Min(TimesPow2(I, n), top)
    decreases n
  {
    hide TimesPow2;
    if n == 0 {
      TimesOne(I);
    } else {
      AfterIs(n - 1, I, top);
      TimesPow2Step(I, n);
    }
  }

  /** The largest interval is reached within iMax doublings from any interval not below iMin, and kept. */
  lemma ReachesLargest(iMin: nat, iMax: nat, I: nat, n: nat)
    requires iMin <= I <= Interval(iMin, iMax) && n >= iMax
    ensures After(n, I, Interval(iMin, iMax)) == Interval(iMin, iMax)
  {
    hide After, Pow2;
    AfterIs(n, I, Interval(iMin, iMax));
    Pow2Monotone(iMax, n);
    MulMono(iMin, Pow2(iMax), Pow2(n));
    MulMono(Pow2(n), iMin, I);
  }

  // ---- The timer -----------------------------------------------------------------------

  /** A time on a clock of W bits. */
  function Wrapped(x: int, W: nat): (r: nat)
    ensures r < Pow2(W)
  {
    x % Pow2(W)
  }

  /** The ticks to wait for a time on the clock, 0 when it lies in the half of the clock's range that counts as past. */
  function Ahead(target: int, now: int, W: nat): nat {
    var d := Wrapped(target - now, W);
    if d <= (Pow2(W) - 1) / 2 then d else 0
  }

  // ---- What is drawn -------------------------------------------------------------------

  function Draw(I: nat, rand: nat): (t: nat)
    requires I >= 2
  {
    I / 2 + rand % (I / 2)
  }

  /** Every time in [I / 2, I) is drawn, by one number below I / 2, but for the last one of an odd interval, which never is. */
  lemma DrawnIff(I: nat, t: nat)
    requires I >= 2
    ensures (exists rand: nat :: Draw(I, rand) == t) <==> I / 2 <= t < I - I % 2
    ensures forall r: nat, r': nat :: r < I / 2 && r' < I / 2 && Draw(I, r) == Draw(I, r') ==> r == r'
  {
    if I / 2 <= t < I - I % 2 {
      assert Draw(I, t - I / 2) == t;
    }
    forall r: nat, r': nat | r < I / 2 && r' < I / 2 && Draw(I, r) == Draw(I, r') ensures r == r' {
      DivUnique(r, I / 2, 0, r);
      DivUnique(r', I / 2, 0, r');
    }
  }

  function FirstInterval(iMin: nat, iMaxAbs: nat, rand: nat): (I: nat)
    requires iMin <= iMaxAbs
  {
    iMin + rand % (iMaxAbs - iMin + 1)
  }

  /** The first interval can be any from Imin to Imax, and no other. */
  lemma StartedIff(iMin: nat, iMaxAbs: nat, I: nat)
    requires iMin <= iMaxAbs
    ensures (exists rand: nat :: FirstInterval(iMin, iMaxAbs, rand) == I) <==> iMin <= I <= iMaxAbs
  {
    if iMin <= I <= iMaxAbs {
      DivUnique(I - iMin, iMaxAbs - iMin + 1, 0, I - iMin);
      assert FirstInterval(iMin, iMaxAbs, I - iMin) == I;
    }
  }

  datatype Callback = Nothing | Fire | DoubleInterval

  class TrickleTimer {
    const W: nat
    var iMin: nat
    var iCur: nat
    var iStart: nat
    var iMaxAbs: nat
    var iMax: nat
    var k: nat
    var c: nat
    /** The ctimer: what it will call, and in how many ticks from when it was set. */
    var next: Callback
    var delay: nat

    ghost predicate Configured()
      reads this
    {
      && ClockWidth(W)
      && 2 <= iMin && k > 0
      && iMaxAbs == Interval(iMin, iMax) && iMaxAbs <= Pow2(W - 1)
    }

    /** I lies in [Imin, Imax] whenever the timer runs. */
    ghost predicate Valid()
      reads this
    {
      && Configured() && iMin <= iMaxAbs
      && (iCur == 0 || iMin <= iCur <= iMaxAbs)
      && (next != Nothing ==> iCur != 0)
    }

    constructor (W: nat)
      requires ClockWidth(W)
      ensures this.W == W && iCur == 0 && next == Nothing
    {
      this.W := W;
      iMin, iCur, iStart, iMaxAbs, iMax, k, c := 0, 0, 0, 0, 0, 0, 0;
      next, delay := Nothing, 0;
    }

    /** trickle_timer_config: lowers iMax, if need be, to the largest number of doublings that the clock has room for. */
    method Config(iMin: nat, iMax: nat, k: nat) returns (ok: bool)
      requires ClockWidth(W) && iMax + 1 < W
      modifies this
      ensures ok <==> 2 <= iMin <= (Pow2(W) - 1) / 2 && iMax != 0 && k != 0
      ensures !ok ==> unchanged(this)
      ensures ok ==> Configured() && this.iMin == iMin && this.k == k && iCur == old(iCur)
      ensures ok && iCur == 0 && next == Nothing ==> Valid()
      ensures ok ==> this.iMax <= iMax && (this.iMax == iMax || Interval(iMin, this.iMax + 1) > Pow2(W - 1))
    {
      hide Pow2, TimesPow2, BitLen;
      HalfRange(W);
      if iMin < 2 || iMin > (Pow2(W) - 1) / 2 {
        return false;
      }
      if iMax == 0 || k == 0 {
        return false;
      }
      var m := iMax;
      PairTest(W, iMin, iMax);
      if Shr(Pow2(W) - 1, iMax + 1) < iMin - 1 {
        MaxImaxIsLargest(W, iMin, iMax);
        m := MaxImax(W, iMin);
        MaxImaxIsLargest(W, iMin, m);
        MaxImaxIsLargest(W, iMin, m + 1);
      }
      this.iMin := iMin;
      this.iMax := m;
      ShiftExact(iMin, m, W);
      iMaxAbs := ShlMod(iMin, m, Pow2(W));
      this.k := k;
      ok := true;
    }

    /** get_t: a time in [I / 2, I). */
    method GetT(I: nat, rand: nat) returns (t: nat)
      requires I >= 2
      ensures I / 2 <= t < I && t == Draw(I, rand)
    {
      t := I / 2 + rand % (I / 2);
    }

    method NewInterval(rand: nat, now: nat)
      requires Valid() && iCur != 0
      modifies `c, `next, `delay, `iStart
      ensures c == 0 && next == Fire && iCur / 2 <= delay < iCur && iStart == now
      ensures delay == Draw(iCur, rand)
    {
      c := 0;
      delay := GetT(iCur, rand);
      next := Fire;
      iStart := now;
    }

    /** trickle_timer_set with a callback: starts at a random interval. */
    method Set(rand: nat, rand': nat, now: nat)
      requires Valid()
      modifies `iCur, `c, `next, `delay, `iStart
      ensures Valid() && iMin <= iCur <= iMaxAbs
      ensures c == 0 && next == Fire && iCur / 2 <= delay < iCur && iStart == now
      ensures iCur == FirstInterval(iMin, iMaxAbs, rand) && delay == Draw(iCur, rand')
    {
      iCur := iMin + rand % (iMaxAbs - iMin + 1);
      NewInterval(rand', now);
    }

    method Consistency()
      requires Valid()
      modifies `c
      ensures Valid() && c == if old(c) < 0xFF then old(c) + 1 else old(c)
    {
      if c < 0xFF {
        c := c + 1;
      }
    }

    /** An inconsistency does nothing at Imin, and otherwise starts again there: even a timer that was stopped. */
    method Inconsistency(rand: nat, now: nat)
      requires Valid()
      modifies `iCur, `c, `next, `delay, `iStart
      ensures Valid() && iCur == iMin
      ensures old(iCur) == iMin ==> unchanged(this)
      ensures old(iCur) != iMin ==>
        c == 0 && next == Fire && iCur / 2 <= delay < iCur && delay == Draw(iCur, rand) && iStart == now
    {
      if iCur != iMin {
        iCur := iMin;
        NewInterval(rand, now);
      }
    }

    /** Ticks from now until the time base + t, or 0 when that is past. */
    method Until(base: nat, t: nat, now: nat) returns (d: nat)
      requires ClockWidth(W) && now < Pow2(W)
      ensures d == Ahead(base + t, now, W)
    {
      hide Pow2, Wrapped;
      d := Wrapped(base + t - now, W);
      if d > (Pow2(W) - 1) / 2 {
        d := 0;
      }
    }

    /** The end of an interval: the next one is twice as long, up to the largest. */
    method Double(rand: nat, now: nat) returns (ghost t: nat)
      requires Valid() && iCur != 0 && now < Pow2(W)
      modifies `iCur, `c, `next, `delay, `iStart
      ensures Valid() && iCur == Min(2 * old(iCur), iMaxAbs) && c == 0
      ensures next == Fire && iStart == Wrapped(old(iStart) + old(iCur), W)
      ensures iCur / 2 <= t < iCur && t == Draw(iCur, rand)
      ensures delay == Ahead(iStart + t, now, W)
    {
      hide Pow2, Draw, Interval, Wrapped, Ahead;
      c := 0;
      var lastEnd := Wrapped(iStart + iCur, W);
      if iCur <= iMaxAbs / 2 {
        iCur := 2 * iCur;
      } else {
        iCur := iMaxAbs;
      }
      var clock := GetT(iCur, rand);
      t := clock;
      delay := Until(lastEnd, clock, now);
      next := Fire;
      iStart := lastEnd;
    }

    /** fire: tells the protocol whether it may send, and waits for the end of the interval. */
    method FireTimer(now: nat) returns (allow: bool)
      requires Valid() && now < Pow2(W)
      modifies `next, `delay
      ensures Valid() && (allow <==> c < k)
      ensures iCur != 0 ==> next == DoubleInterval
      ensures iCur != 0 ==> delay == Ahead(iStart + iCur, now, W)
      ensures iCur == 0 ==> next == old(next) && delay == old(delay)
    {
      hide Pow2, Interval, Wrapped, Ahead;
      allow := k == INFINITE_REDUNDANCY || c < k;
      if iCur != 0 {
        delay := Until(iStart, iCur, now);
        next := DoubleInterval;
      }
    }

    /** trickle_timer_stop. */
    method Stop()
      requires Valid()
      modifies `iCur, `next
      ensures Valid() && iCur == 0 && next == Nothing
    {
      next := Nothing;
      iCur := 0;
    }

    /** A quiet network: n intervals end one after another. */
    method Quiet(n: nat, rands: nat -> nat, nows: nat -> nat)
      requires Valid() && iCur != 0 && forall i :: nows(i) < Pow2(W)
      modifies `iCur, `c, `next, `delay, `iStart
      ensures Valid() && iCur == Min(TimesPow2(old(iCur), n), iMaxAbs)
      ensures n >= iMax ==> iCur == iMaxAbs
    {
      hide Pow2, Interval, TimesPow2;
      for i := 0 to n
        invariant Valid() && iCur == After(i, old(iCur), iMaxAbs) && iCur != 0
      {
        ghost var t := Double(rands(i), nows(i));
      }
      AfterIs(n, old(iCur), iMaxAbs);
      if n >= iMax {
        ReachesLargest(iMin, iMax, old(iCur), n);
      }
    }

    /** One event in the life of a configured timer. */
    method Happens(e: Event)
      requires Valid() && e.now < Pow2(W)
      modifies `iCur, `c, `next, `delay, `iStart
      ensures Valid() && IntervalStep(e, old(next), old(iCur), iCur, iMin, iMaxAbs)
    {
      hide Interval, Pow2, Ahead, Wrapped;
      match e
      case Started(rand, rand', now) => Set(rand, rand', now);
      case Consistent(_) => Consistency();
      case Inconsistent(rand, now) => Inconsistency(rand, now);
      case Stopped(_) => Stop();
      case Expired(rand, now) =>
        if next == Fire {
          var allow := FireTimer(now);
        } else if next == DoubleInterval {
          ghost var t := Double(rand, now);
        }
    }

    /** Over every life of a timer the interval stays in [Imin, Imax] while it runs, and only moves as RFC 6206 has it. */
    method Life(es: seq<Event>) returns (ghost Is: seq<nat>)
      requires Valid() && forall i :: 0 <= i < |es| ==> es[i].now < Pow2(W)
      modifies `iCur, `c, `next, `delay, `iStart
      ensures Valid() && |Is| == |es| + 1 && Is[0] == old(iCur) && Is[|es|] == iCur
      ensures forall i :: 0 <= i <= |es| ==> Is[i] == 0 || iMin <= Is[i] <= iMaxAbs
      ensures forall i :: 0 <= i < |es| ==> Moves(es[i], Is[i], Is[i + 1], iMin, iMaxAbs)
    {
      hide Interval, Pow2;
      Is := [iCur];
      for n := 0 to |es|
        invariant Valid() && |Is| == n + 1 && Is[0] == old(iCur) && Is[n] == iCur
        invariant forall i :: 0 <= i <= n ==> Is[i] == 0 || iMin <= Is[i] <= iMaxAbs
        invariant forall i :: 0 <= i < n ==> Moves(es[i], Is[i], Is[i + 1], iMin, iMaxAbs)
      {
        Happens(es[n]);
        Is := Is + [iCur];
      }
    }
  }

  /** What can happen to a timer, and when; Expired is the ctimer calling back. */
  datatype Event =
    | Started(rand: nat, rand': nat, now: nat)
    | Consistent(now: nat)
    | Inconsistent(rand: nat, now: nat)
    | Expired(rand: nat, now: nat)
    | Stopped(now: nat)

  predicate IntervalStep(e: Event, next: Callback, I: nat, I': nat, iMin: nat, top: nat) {
    match e
    case Started(_, _, _) => iMin <= I' <= top
    case Consistent(_) => I' == I
    case Inconsistent(_, _) => I' == iMin
    case Expired(_, _) => I' == if next == DoubleInterval then Min(2 * I, top) else I
    case Stopped(_) => I' == 0
  }

  /** The same without the callback: an expiry leaves the interval or doubles it. */
  predicate Moves(e: Event, I: nat, I': nat, iMin: nat, top: nat) {
    exists next :: IntervalStep(e, next, I, I', iMin, top)
  }

  const INFINITE_REDUNDANCY: nat := 0

  lemma HalfRange(W: nat)
    requires W > 0
    ensures (Pow2(W) - 1) / 2 == Pow2(W - 1) - 1
  {
  }

  lemma ShiftExact(iMin: nat, m: nat, W: nat)
    requires W > 0 && Interval(iMin, m) <= Pow2(W - 1)
    ensures ShlMod(iMin, m, Pow2(W)) == Interval(iMin, m)
    ensures iMin <= Interval(iMin, m)
  {
    var x := Interval(iMin, m);
    DivUnique(x, Pow2(W), 0, x);
    if iMin > 0 {
      MulMono(iMin, 1, Pow2(m));
    }
  }

  /** A time no more than half the clock's range ahead is reached after exactly that long, and one that is past at once. */
  lemma AheadIs(target: int, now: int, W: nat)
    requires W > 0 && now - Pow2(W - 1) <= target < now + Pow2(W - 1)
    ensures Ahead(target, now, W) == if target >= now then target - now else 0
  {
    hide Pow2;
    HalfRange(W);
    WholeRange(W);
    var x := target - now;
    if x >= 0 {
      DivUnique(x, Pow2(W), 0, x);
    } else {
      DivUnique(x, Pow2(W), -1, x + Pow2(W));
    }
  }

  lemma WholeRange(W: nat)
    requires W > 0
    ensures Pow2(W) == 2 * Pow2(W - 1)
  {
  }
}
