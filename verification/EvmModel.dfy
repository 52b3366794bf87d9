/** The stack instructions of the virtual machine, as coded and as appendix H.2 of the Ethereum Yellow Paper has them. */
module EvmModel {
  import opened Bits
  import opened Shifting

  datatype Op =
    | Push(n: nat) | Dup(n: nat) | Swap(n: nat) | Pop
    | Add | Sub | Lt | Gt | Eq | IsZero | And | Or | Xor | Not | Byte | Shl | Shr
  {
    predicate WellFormed() {
      match this
      case Push(n) => 1 <= n <= 32
      case Dup(n) => 1 <= n <= 16
      case Swap(n) => 1 <= n <= 16
      case _ => true
    }

    predicate Binary() {
      Add? || Sub? || Lt? || Gt? || Eq? || And? || Or? || Xor? || Byte? || Shl? || Shr?
    }

    /** The operands the instruction works on. */
    function Inputs(): nat {
      match this
      case Push(_) => 0
      case Dup(n) => n
      case Swap(n) => n + 1
      case _ => if Binary() then 2 else 1
    }

    /** How the depth of the stack changes. */
    function Growth(): int {
      match this
      case Push(_) => 1
      case Dup(_) => 1
      case Swap(_) => 0
      case Pop => -1
      case _ => if Binary() then -1 else 0
    }

    /** The bytes of code behind the opcode. */
    function Immediate(): nat {
      if Push? then n else 0
    }

    /** The gas charged, which for three of the instructions is none. */
    function Gas(): nat {
      match this
      case Push(_) => 2
      case Pop => 2
      case Dup(_) => 0
      case Swap(_) => 0
      case Sub => 0
      case _ => 3
    }

    function OpCode(): u8
      requires WellFormed()
    {
      match this
      case Push(n) => 0x5f + n
      case Dup(n) => 0x7f + n
      case Swap(n) => 0x8f + n
      case Pop => 0x50
      case Add => 0x01
      case Sub => 0x03
      case Lt => 0x10
      case Gt => 0x11
      case Eq => 0x14
      case IsZero => 0x15
      case And => 0x16
      case Or => 0x17
      case Xor => 0x18
      case Not => 0x19
      case Byte => 0x1a
      case Shl => 0x1b
      case Shr => 0x1c
    }
  }

  // ---- Big-endian values -------------------------------------------------------------

  type Data = seq<u8>

  function Be(d: Data): nat {
    if d == [] then 0 else Be(d[..|d| - 1]) * 256 + d[|d| - 1]
  }

  lemma BeLast(d: Data, b: u8)
    ensures Be(d + [b]) == Be(d) * 256 + b
  {
    assert (d + [b])[..|d|] == d;
  }

  lemma {:induction false} BeBound(d: Data)
    ensures Be(d) < Pow2(8 * |d|)
  {
    if d != [] {
      BeBound(d[..|d| - 1]);
      var k := 8 * (|d| - 1);
      Pow2At8();
      Pow2Add(k, 8);
    }
  }

  lemma {:induction false} BeConcat(d: Data, e: Data)
    ensures Be(d + e) == TimesPow2(Be(d), 8 * |e|) + Be(e)
    decreases |e|
  {
    if e == [] {
      assert d + e == d;
      assert Pow2(0) == 1;
    } else {
      var e' := e[..|e| - 1];
      assert (d + e)[..|d + e| - 1] == d + e';
      BeConcat(d, e');
      EightMore(Be(d), 8 * |e'|);
    }
  }

  lemma EightMore(h: nat, k: nat)
    ensures TimesPow2(h, k + 8) == TimesPow2(h, k) * 256
  {
    Pow2At8();
    Pow2Add(k, 8);
    MulAssoc(h, Pow2(k), 256);
  }

  /** Eight bytes more are one limb more. */
  lemma BeLimb(d: Data, e: Data)
    requires |e| == 8
    ensures Be(d + e) == Be(d) * B64 + Be(e)
    ensures Be(e) < B64
  {
    hide Pow2, Be;
    Pow2At64();
    BeConcat(d, e);
    BeBound(e);
  }

  lemma BeShort(d: Data)
    requires |d| <= 8
    ensures Be(d) < B64
  {
    hide Pow2, Be;
    BeBound(d);
    Pow2At64();
    Pow2Monotone(8 * |d|, 64);
  }

  lemma BeWord(d: Data)
    requires |d| <= 32
    ensures Be(d) < B256
  {
    hide Pow2, Be;
    BeBound(d);
    Pow2At256();
    Pow2Monotone(8 * |d|, 256);
  }

  // ---- The four limbs of a word ------------------------------------------------------

  function Limb(v: nat, i: nat): (l: u64)
    requires i < 4
  {
    match i
    case 0 => v % B64
    case 1 => v / B64 % B64
    case 2 => v / B128 % B64
    case _ => v / B192 % B64
  }

  function OfLimbs(l3: u64, l2: u64, l1: u64, l0: u64): nat {
    l3 * B192 + l2 * B128 + l1 * B64 + l0
  }

  lemma LimbsAre(l3: u64, l2: u64, l1: u64, l0: u64)
    ensures
      var v := OfLimbs(l3, l2, l1, l0);
      v < B256 && Limb(v, 0) == l0 && Limb(v, 1) == l1 && Limb(v, 2) == l2 && Limb(v, 3) == l3
  {
    var v := OfLimbs(l3, l2, l1, l0);
    DivUnique(v, B64, l3 * B128 + l2 * B64 + l1, l0);
    DivUnique(v / B64, B64, l3 * B64 + l2, l1);
    DivUnique(v, B128, l3 * B64 + l2, l1 * B64 + l0);
    DivUnique(v / B128, B64, l3, l2);
    DivUnique(v, B192, l3, l2 * B128 + l1 * B64 + l0);
    DivUnique(v / B192, B64, 0, l3);
  }

  /** v with its second and third limb exchanged. */
  function MiddleSwapped(v: nat): nat {
    OfLimbs(Limb(v, 3), Limb(v, 1), Limb(v, 2), Limb(v, 0))
  }

  lemma OfItsLimbs(v: nat)
    requires v < B256
    ensures v == OfLimbs(Limb(v, 3), Limb(v, 2), Limb(v, 1), Limb(v, 0))
  {
    var a := v / B64;
    var b := a / B64;
    var c := b / B64;
    assert v == a * B64 + v % B64 && a == b * B64 + a % B64 && b == c * B64 + b % B64;
    LimbsAre(c, b % B64, a % B64, v % B64);
  }

  lemma MiddleSwappedIff(v: nat)
    requires v < B256
    ensures MiddleSwapped(v) == v <==> Limb(v, 1) == Limb(v, 2)
  {
    hide Limb;
    OfItsLimbs(v);
  }

  // ---- What the instructions compute -------------------------------------------------

  type Slots = seq<nat>

  predicate Words(s: Slots) {
    forall i :: 0 <= i < |s| ==> s[i] < B256
  }

  function ByteAt(x: nat, i: nat): nat
    requires i < 32
  {
    Bits.Shr(x, 248 - 8 * i) % 256
  }

  const B29: nat := 0x2000_0000

  /** The code's two readings differ from the paper's in the word that PUSH builds and in how far a shift reaches. */
  datatype Semantics = AsCoded | YellowPaper {
    function Pushed(d: Data): nat {
      if AsCoded? then MiddleSwapped(Be(d)) else Be(d)
    }

    /** A shift amount: the code keeps 32 bits of it. */
    function Amount(a: nat): nat {
      if AsCoded? then a % B32 else a
    }

    /** A byte number: the code's 8 * a wraps at 2^32. */
    function ByteNumber(a: nat): nat {
      if AsCoded? then a % B29 else a
    }

    /** a is the top of the stack and b the item below it. */
    function Result(op: Op, a: nat, b: nat): nat
      requires op.Binary()
    {
      match op
      case Add => AddMod(a, b, B256)
      case Sub => SubMod(a, b, B256)
      case Lt => if a < b then 1 else 0
      case Gt => if a > b then 1 else 0
      case Eq => if a == b then 1 else 0
      case And => Bitwise(AndFn, a, b)
      case Or => Bitwise(OrFn, a, b)
      case Xor => Bitwise(XorFn, a, b)
      case Shl => ShlMod(b, Amount(a), B256)
      case Shr => Bits.Shr(b, Amount(a))
      case _ => if ByteNumber(a) < 32 then ByteAt(b, ByteNumber(a)) else 0
    }

    /** The slots after op, top last; DUP and SWAP reaching below them do nothing. */
    function Exec(op: Op, d: Data, s: Slots): Slots
      requires op.WellFormed() && |d| == op.Immediate()
      requires op.Dup? || op.Swap? || op.Inputs() <= |s|
      requires Words(s)
    {
      var k := |s|;
      match op
      case Push(_) => s + [Pushed(d)]
      case Dup(n) => if n <= k then s + [s[k - n]] else s
      case Swap(n) => if n < k then s[k - 1 := s[k - 1 - n]][k - 1 - n := s[k - 1]] else s
      case Pop => s[..k - 1]
      case IsZero => s[..k - 1] + [if s[k - 1] == 0 then 1 else 0]
      case Not => s[..k - 1] + [B256 - 1 - s[k - 1]]
      case _ => s[..k - 2] + [Result(op, s[k - 1], s[k - 2])]
    }
  }

  lemma ByteAtMost(x: nat, i: nat)
    requires i < 32
    ensures ByteAt(x, i) < 256
  {
  }

  // ---- Where the two semantics agree -------------------------------------------------

  /** The conditions under which an instruction does what the paper says, for operands a (the top) and b. */
  predicate Plain(op: Op, a: nat, b: nat) {
    match op
    case Shl => var k := a % B32; a == k || k >= 256 || b % Pow2(256 - k) == 0
    case Shr => var k := a % B32; a == k || k >= 256 || b < Pow2(k)
    case Byte => var k := a % B29; a < 32 || k >= 32 || ByteAt(b, k) == 0
    case _ => true
  }

  predicate Faithful(op: Op, d: Data, s: Slots)
    requires op.Binary() ==> 2 <= |s|
  {
    if op.Push? then |d| <= 8 || Limb(Be(d), 1) == Limb(Be(d), 2)
    else op.Binary() ==> Plain(op, s[|s| - 1], s[|s| - 2])
  }

  lemma PushedAgrees(d: Data)
    requires |d| <= 32
    ensures AsCoded.Pushed(d) == YellowPaper.Pushed(d) <==> |d| <= 8 || Limb(Be(d), 1) == Limb(Be(d), 2)
  {
    hide Limb, Be, MiddleSwapped;
    BeWord(d);
    MiddleSwappedIff(Be(d));
    if |d| <= 8 {
      BeShort(d);
      LimbsAre(0, 0, 0, Be(d));
    }
  }

  /** PUSH9 of 2^64 pushes 2^128. */
  lemma PushNineWrong()
    ensures
      var d: Data := [1, 0, 0, 0, 0, 0, 0, 0, 0];
      YellowPaper.Pushed(d) == B64 && AsCoded.Pushed(d) == B128
  {
    hide Limb, Be;
    var d: Data := [1, 0, 0, 0, 0, 0, 0, 0, 0];
    BeLimb([1], [0, 0, 0, 0, 0, 0, 0, 0]);
    assert [1] + [0, 0, 0, 0, 0, 0, 0, 0] == d;
    BeZero([0, 0, 0, 0, 0, 0, 0, 0]);
    BeOne();
    LimbsAre(0, 0, 1, 0);
  }

  /** SHL and SHR by 2^32 leave the operand as it is, and BYTE 2^29 gives byte 0, where the paper has 0 each time. */
  lemma ShiftsWrong()
    ensures AsCoded.Result(Shl, B32, 1) == 1 && YellowPaper.Result(Shl, B32, 1) == 0
    ensures AsCoded.Result(Shr, B32, 1) == 1 && YellowPaper.Result(Shr, B32, 1) == 0
    ensures AsCoded.Result(Byte, B29, B256 - 1) == 255 && YellowPaper.Result(Byte, B29, B256 - 1) == 0
  {
    hide Pow2, ShlMod, Bits.Shr;
    ShiftByNone(1);
    Pow2At256();
    ShlAll(1, 256, B32);
    ShlIs(1, B32);
    ShrNone(1, B32);
    TopByteOfOnes();
  }

  lemma ShiftByNone(x: nat)
    requires x < B256
    ensures ShlMod(x, 0, B256) == x && Bits.Shr(x, 0) == x
  {
    assert Pow2(0) == 1;
    DivUnique(x, B256, 0, x);
  }

  lemma ShlIs(x: nat, k: nat)
    ensures x * Pow2(k) >= 0 && ShlMod(x, k, B256) == x * Pow2(k) % B256
  {
    hide Pow2;
  }

  lemma TopByteOfOnes()
    ensures ByteAt(B256 - 1, 0) == 255
  {
    hide Pow2;
    Pow2At256();
    Pow2At8();
    Pow2Add(248, 8);
    var p := Pow2(248);
    DivUnique(B256 - 1, p, 255, p - 1);
  }

  lemma {:induction false} BeZero(d: Data)
    requires forall i :: 0 <= i < |d| ==> d[i] == 0
    ensures Be(d) == 0
  {
    if d != [] {
      BeZero(d[..|d| - 1]);
    }
  }

  lemma BeOne()
    ensures Be([1]) == 1
  {
    assert [1][..0] == [];
  }

  lemma ShlAgrees(b: nat, a: nat)
    requires b < B256
    ensures ShlMod(b, a % B32, B256) == ShlMod(b, a, B256) <==> Plain(Shl, a, b)
  {
    hide Pow2;
    var k := a % B32;
    Pow2At256();
    if a != k {
      ShlAll(b, 256, a);
      if k >= 256 {
        ShlAll(b, 256, k);
      } else {
        Pow2Add(k, 256 - k);
        LimbTimes(b, Pow2(k), Pow2(256 - k), B256);
        ZeroProduct(b % Pow2(256 - k), Pow2(k));
      }
    }
  }

  lemma ZeroProduct(x: nat, p: nat)
    requires p > 0
    ensures x * p == 0 <==> x == 0
  {
    if x > 0 {
      MulAtLeast(p, x);
    }
  }

  lemma ShrAgrees(b: nat, a: nat)
    requires b < B256
    ensures Bits.Shr(b, a % B32) == Bits.Shr(b, a) <==> Plain(Shr, a, b)
  {
    hide Pow2;
    var k := a % B32;
    Pow2At256();
    if a != k {
      ShrAll(b, 256, a);
      if k >= 256 {
        ShrAll(b, 256, k);
      } else {
        ZeroQuotient(b, Pow2(k));
      }
    }
  }

  lemma ZeroQuotient(b: nat, p: nat)
    requires p > 0
    ensures b / p == 0 <==> b < p
  {
    if b < p {
      DivUnique(b, p, 0, b);
    }
  }

  lemma ByteAgrees(b: nat, a: nat)
    ensures AsCoded.Result(Byte, a, b) == YellowPaper.Result(Byte, a, b) <==> Plain(Byte, a, b)
  {
    hide ByteAt;
  }

  lemma ResultAgrees(op: Op, a: nat, b: nat)
    requires op.Binary() && b < B256
    ensures AsCoded.Result(op, a, b) == YellowPaper.Result(op, a, b) <==> Plain(op, a, b)
  {
    hide Pow2, ByteAt, Bitwise, ShlMod, Bits.Shr;
    match op
    case Shl => ShlAgrees(b, a);
    case Shr => ShrAgrees(b, a);
    case Byte => ByteAgrees(b, a);
    case _ =>
  }

  /** An instruction does what the paper says exactly when its immediate or its operands are plain. */
  lemma ExecAgrees(op: Op, d: Data, s: Slots)
    requires op.WellFormed() && |d| == op.Immediate() && op.Inputs() <= |s| && Words(s)
    ensures AsCoded.Exec(op, d, s) == YellowPaper.Exec(op, d, s) <==> Faithful(op, d, s)
  {
    hide Semantics.Pushed, Semantics.Result, Plain, Limb, Be;
    var k := |s|;
    if op.Push? {
      PushedAgrees(d);
      LastOf(s, AsCoded.Pushed(d), YellowPaper.Pushed(d));
    } else if op.Binary() {
      ResultAgrees(op, s[k - 1], s[k - 2]);
      LastOf(s[..k - 2], AsCoded.Result(op, s[k - 1], s[k - 2]), YellowPaper.Result(op, s[k - 1], s[k - 2]));
    }
  }

  lemma LastOf(s: Slots, x: nat, y: nat)
    ensures s + [x] == s + [y] <==> x == y
  {
    assert (s + [x])[|s|] == x && (s + [y])[|s|] == y;
  }

  /** The code computes 248 - 8 * i in 32 bits and shifts by what it gets. */
  lemma CodedByte(a: nat, b: nat)
    requires b < B256
    ensures 0 <= (248 - 8 * (a % B32)) % B32
    ensures Bits.Shr(b, (248 - 8 * (a % B32)) % B32) % 256 == AsCoded.Result(Byte, a, b)
  {
    hide Bits.Shr;
    var i := a % B32;
    var r := a % B29;
    EighthOf(a);
    var v := (248 - 8 * i) % B32;
    var q := i / B29;
    assert 8 * i == B32 * q + 8 * r;
    if r < 32 {
      DivUnique(248 - 8 * i, B32, -q, 248 - 8 * r);
    } else {
      DivUnique(248 - 8 * i, B32, -q - 1, B32 + 248 - 8 * r);
      ShrNone(b, v);
    }
  }

  lemma ShrNone(b: nat, v: nat)
    requires b < B256 && v >= 256
    ensures Bits.Shr(b, v) == 0
  {
    Pow2At256();
    ShrAll(b, 256, v);
  }

  lemma EighthOf(a: nat)
    ensures a % B32 % B29 == a % B29
  {
    DivUnique(a, B29, a / B32 * 8 + a % B32 / B29, a % B32 % B29);
  }

  // ---- Straight-line programs --------------------------------------------------------

  lemma BitwiseWord(fn: BitFn, x: nat, y: nat)
    requires x < B256 && y < B256
    ensures Bitwise(fn, x, y) < B256
  {
    hide Bitwise, Pow2;
    Pow2At256();
    BitwiseSplit(fn, 256, x, 0, y, 0);
  }

  lemma ResultWord(sem: Semantics, op: Op, a: nat, b: nat)
    requires op.Binary() && a < B256 && b < B256
    ensures sem.Result(op, a, b) < B256
  {
    hide Bitwise, Bits.Shr, ShlMod, ByteAt, AddMod, SubMod;
    BitwiseWord(AndFn, a, b);
    BitwiseWord(OrFn, a, b);
    BitwiseWord(XorFn, a, b);
    if sem.ByteNumber(a) < 32 {
      ByteAtMost(b, sem.ByteNumber(a));
    }
  }

  lemma PushedWord(sem: Semantics, d: Data)
    requires |d| <= 32
    ensures sem.Pushed(d) < B256
  {
    hide Limb, Be;
    var v := Be(d);
    BeWord(d);
    LimbsAre(Limb(v, 3), Limb(v, 1), Limb(v, 2), Limb(v, 0));
  }

  lemma ExecWords(sem: Semantics, op: Op, d: Data, s: Slots)
    requires op.WellFormed() && |d| == op.Immediate() && op.Inputs() <= |s| && Words(s)
    ensures Words(sem.Exec(op, d, s)) && |sem.Exec(op, d, s)| == |s| + op.Growth()
  {
    hide Semantics.Pushed, Semantics.Result;
    if op.Push? {
      PushedWord(sem, d);
    } else if op.Binary() {
      ResultWord(sem, op, s[|s| - 1], s[|s| - 2]);
    }
  }

  /** With its operands there, an instruction leaves whatever lies below them alone. */
  lemma BelowUntouched(sem: Semantics, op: Op, d: Data, below: Slots, s: Slots)
    requires op.WellFormed() && |d| == op.Immediate() && op.Inputs() <= |s| && Words(below) && Words(s)
    ensures Words(below + s) && sem.Exec(op, d, below + s) == below + sem.Exec(op, d, s)
  {
    hide Semantics.Exec;
    if op.Binary() {
      BinaryAbove(sem, op, below, s);
    } else if op.Push? || op.Dup? || op.Swap? {
      MoveAbove(sem, op, d, below, s);
    } else {
      UnaryAbove(sem, op, below, s);
    }
  }

  lemma MoveAbove(sem: Semantics, op: Op, d: Data, below: Slots, s: Slots)
    requires op.WellFormed() && |d| == op.Immediate() && op.Inputs() <= |s| && Words(s) && Words(below + s)
    requires op.Push? || op.Dup? || op.Swap?
    ensures sem.Exec(op, d, below + s) == below + sem.Exec(op, d, s)
  {
    hide Semantics.Pushed, Semantics.Result;
    match op
    case Push(_) => Above(below, s, 0, sem.Pushed(d));
    case Dup(n) => Above(below, s, 0, s[|s| - n]);
    case Swap(n) => SwapAbove(below, s, n);
  }

  lemma UnaryAbove(sem: Semantics, op: Op, below: Slots, s: Slots)
    requires (op == Pop || op == IsZero || op == Not) && 1 <= |s| && Words(s) && Words(below + s)
    ensures sem.Exec(op, [], below + s) == below + sem.Exec(op, [], s)
  {
    var top := s[|s| - 1];
    Above(below, s, 1, if op == IsZero then (if top == 0 then 1 else 0) else B256 - 1 - top);
  }

  lemma BinaryAbove(sem: Semantics, op: Op, below: Slots, s: Slots)
    requires op.Binary() && 2 <= |s| && Words(s) && Words(below + s)
    ensures sem.Exec(op, [], below + s) == below + sem.Exec(op, [], s)
  {
    hide Semantics.Result;
    Above(below, s, 2, sem.Result(op, s[|s| - 1], s[|s| - 2]));
  }

  /** The top j items of below + s are those of s, which x may replace. */
  lemma Above(below: Slots, s: Slots, j: nat, x: nat)
    requires j <= |s|
    ensures (below + s)[..|below + s| - j] == below + s[..|s| - j]
    ensures (below + s)[..|below + s| - j] + [x] == below + (s[..|s| - j] + [x])
    ensures below + s + [x] == below + (s + [x])
  {
  }

  lemma SwapAbove(below: Slots, s: Slots, n: nat)
    requires n < |s|
    ensures
      var t, k := below + s, |below + s|;
      t[k - 1 := t[k - 1 - n]][k - 1 - n := t[k - 1]]
      == below + s[|s| - 1 := s[|s| - 1 - n]][|s| - 1 - n := s[|s| - 1]]
  {
  }

  datatype Instr = Instr(op: Op, data: Data) {
    predicate WellFormed() {
      op.WellFormed() && |data| == op.Immediate()
    }

    function Bytes(): Data
      requires WellFormed()
    {
      [op.OpCode()] + data
    }
  }

  type Program = p: seq<Instr> | forall i :: 0 <= i < |p| ==> p[i].WellFormed()

  function Front(p: Program): Program
    requires p != []
  {
    p[..|p| - 1]
  }

  function Encode(p: Program): Data {
    if p == [] then [] else Encode(Front(p)) + p[|p| - 1].Bytes()
  }

  const STACK_SPACE: int := 96

  /** The depth the stack has after p, from depth k. */
  function Depth(p: Program, k: nat): int {
    if p == [] then k else Depth(Front(p), k) + p[|p| - 1].op.Growth()
  }

  /** At every step the operands are there and the stack stays inside its array, by the code's own tests. */
  predicate Fits(p: Program, k: nat) {
    p == [] ||
    var d := Depth(Front(p), k);
    var op := p[|p| - 1].op;
    && Fits(Front(p), k)
    && op.Inputs() <= d
    && d + (if op.Push? then op.n else op.Growth()) < STACK_SPACE
  }

  function GasOf(p: Program): nat {
    if p == [] then 0 else GasOf(Front(p)) + p[|p| - 1].op.Gas()
  }

  function Run(sem: Semantics, p: Program, s: Slots): (r: Slots)
    requires Words(s) && Fits(p, |s|)
    ensures Words(r) && |r| == Depth(p, |s|)
  {
    if p == [] then s
    else
      var t := Run(sem, Front(p), s);
      var i := p[|p| - 1];
      ExecWords(sem, i.op, i.data, t);
      sem.Exec(i.op, i.data, t)
  }

  predicate FaithfulRun(p: Program, s: Slots)
    requires Words(s) && Fits(p, |s|)
  {
    p == [] ||
    var i := p[|p| - 1];
    FaithfulRun(Front(p), s) && Faithful(i.op, i.data, Run(YellowPaper, Front(p), s))
  }

  /** A run whose immediates and operands are plain at every step ends as the paper says. */
  lemma {:induction false} RunAgrees(p: Program, s: Slots)
    requires Words(s) && Fits(p, |s|) && FaithfulRun(p, s)
    ensures Run(AsCoded, p, s) == Run(YellowPaper, p, s)
    decreases |p|
  {
    hide Faithful, Semantics.Exec;
    if p != [] {
      RunAgrees(Front(p), s);
      ExecAgrees(p[|p| - 1].op, p[|p| - 1].data, Run(YellowPaper, Front(p), s));
    }
  }

  /** An instruction that is plain whatever the stack holds. */
  predicate AlwaysPlain(i: Instr) {
    if i.op.Push? then i.op.n <= 8 else !i.op.Shl? && !i.op.Shr? && !i.op.Byte?
  }

  /** So a program without long immediates and shifts always ends as the paper says. */
  lemma {:induction false} PlainRunAgrees(p: Program, s: Slots)
    requires Words(s) && Fits(p, |s|)
    requires forall i :: 0 <= i < |p| ==> AlwaysPlain(p[i])
    ensures FaithfulRun(p, s) && Run(AsCoded, p, s) == Run(YellowPaper, p, s)
    decreases |p|
  {
    hide Limb, Be, Semantics.Exec;
    if p != [] {
      PlainRunAgrees(Front(p), s);
      RunAgrees(p, s);
    }
  }

  // ---- Decoding ----------------------------------------------------------------------

  predicate Modelled(c: u8) {
    || c == 0x01 || c == 0x03 || c == 0x10 || c == 0x11 || 0x14 <= c <= 0x1c || c == 0x50
    || 0x60 <= c <= 0x9f
  }

  function OpOf(c: u8): (op: Op)
    requires Modelled(c)
    ensures op.WellFormed()
  {
    if c >= 0x90 then Swap(c - 0x8f)
    else if c >= 0x80 then Dup(c - 0x7f)
    else if c >= 0x60 then Push(c - 0x5f)
    else match c
      case 0x01 => Add
      case 0x03 => Sub
      case 0x10 => Lt
      case 0x11 => Gt
      case 0x14 => Eq
      case 0x15 => IsZero
      case 0x16 => And
      case 0x17 => Or
      case 0x18 => Xor
      case 0x19 => Not
      case 0x1a => Byte
      case 0x1b => Shl
      case 0x1c => Shr
      case _ => Pop
  }

  lemma OpCodeDecodes(op: Op)
    requires op.WellFormed()
    ensures Modelled(op.OpCode()) && OpOf(op.OpCode()) == op && op.OpCode() != 0
  {
  }

  /** With its operands above slot 0, an instruction works on the stack above it. */
  lemma ExecAboveFirst(op: Op, d: Data, s: Slots)
    requires op.WellFormed() && |d| == op.Immediate() && op.Inputs() < |s| && Words(s)
    ensures
      var r := AsCoded.Exec(op, d, s);
      |r| > 0 && r[1..] == AsCoded.Exec(op, d, s[1..])
  {
    hide Semantics.Exec;
    assert s == s[..1] + s[1..];
    ExecWords(AsCoded, op, d, s);
    BelowUntouched(AsCoded, op, d, s[..1], s[1..]);
  }

  /** What is known of a program that fits after its first i instructions. */
  lemma {:induction false} Prefix(p: Program, i: nat, k: nat)
    requires i <= |p| && Fits(p, k)
    ensures Encode(p[..i]) <= Encode(p) && |Encode(p)| >= |Encode(p[..i])| + (|p| - i)
    ensures GasOf(p[..i]) <= GasOf(p) && Fits(p[..i], k)
    decreases |p|
  {
    if i == |p| {
      assert p[..i] == p;
    } else {
      assert Front(p)[..i] == p[..i];
      Prefix(Front(p), i, k);
    }
  }

  /** The code of p, and the last byte of a contract, which the interpreter never executes. */
  predicate IsCode(p: Program, code: Data) {
    |code| == |Encode(p)| + 1 && Encode(p) <= code
  }

  /** The next instruction of a program, as it lies in the code. */
  lemma NextInstr(p: Program, i: nat, k: nat, code: Data)
    requires i < |p| && Fits(p, k) && IsCode(p, code)
    ensures
      var q := p[..i];
      var at := |Encode(q)|;
      var n := |p[i].data|;
      && at + 1 + n == |Encode(p[..i + 1])| <= |Encode(p)|
      && code[at] == p[i].op.OpCode() && code[at + 1..at + 1 + n] == p[i].data
      && Front(p[..i + 1]) == q
      && Fits(q, k) && Fits(p[..i + 1], k)
  {
    hide Op.OpCode;
    var q := p[..i];
    var r := p[..i + 1];
    Prefix(p, i, k);
    Prefix(p, i + 1, k);
    assert Front(r) == q;
    assert Encode(r) == Encode(q) + p[i].Bytes();
    InnerBytes(Encode(q), p[i].op.OpCode(), p[i].data, code);
  }

  lemma InnerBytes(a: Data, c: u8, d: Data, code: Data)
    requires a + ([c] + d) <= code
    ensures code[|a|] == c && code[|a| + 1..|a| + 1 + |d|] == d
  {
    assert code[..|a| + 1 + |d|] == a + ([c] + d);
  }

  lemma EmptyStart(p: Program)
    ensures Encode(p[..0]) == [] && GasOf(p[..0]) == 0 && Fits(p[..0], 0) && Run(AsCoded, p[..0], []) == []
  {
  }

  /** Everything the interpreter needs to know of the instruction it comes to. */
  lemma NextStep(p: Program, i: nat, code: Data)
    requires i < |p| && Fits(p, 0) && IsCode(p, code)
    ensures Fits(p[..i], 0) && Fits(p[..i + 1], 0)
    ensures
      var q := p[..i];
      var s := Run(AsCoded, q, []);
      var op := p[i].op;
      var n := op.Immediate();
      var at := |Encode(q)|;
      && op.Inputs() <= |s|
      && (op.Push? ==> |s| + op.n < STACK_SPACE)
      && (op.Dup? ==> |s| + 1 < STACK_SPACE)
      && at + 1 + n == |Encode(p[..i + 1])| < |code|
      && code[at] == op.OpCode() && code[at + 1..at + 1 + n] == p[i].data
      && GasOf(p[..i + 1]) == GasOf(q) + op.Gas()
      && Run(AsCoded, p[..i + 1], []) == AsCoded.Exec(op, p[i].data, s)
      && (code[at + 1 + n] == 0 ==> i + 1 == |p|)
  {
    hide Semantics.Exec, Op.OpCode, Encode, Run, GasOf, Fits;
    NextInstr(p, i, 0, code);
    Prefix(p, i + 1, 0);
    RunLast(p[..i + 1], []);
    StopAtEnd(p, i, code);
  }

  lemma RunLast(r: Program, s: Slots)
    requires r != [] && Words(s) && Fits(r, |s|)
    ensures
      var t := Run(AsCoded, Front(r), s);
      var i := r[|r| - 1];
      && i.op.Inputs() <= |t|
      && (i.op.Push? ==> |t| + i.op.n < STACK_SPACE)
      && (i.op.Dup? ==> |t| + 1 < STACK_SPACE)
      && GasOf(r) == GasOf(Front(r)) + i.op.Gas()
      && Run(AsCoded, r, s) == AsCoded.Exec(i.op, i.data, t)
  {
    hide Semantics.Exec;
  }

  lemma StopAtEnd(p: Program, i: nat, code: Data)
    requires i < |p| && Fits(p, 0) && IsCode(p, code)
    ensures var at := |Encode(p[..i + 1])|;
      at < |code| && (code[at] == 0 ==> i + 1 == |p|)
  {
    hide Op.OpCode, Encode, Fits;
    if i + 1 == |p| {
      assert p[..i + 1] == p;
    } else {
      NextInstr(p, i + 1, 0, code);
      OpCodeDecodes(p[i + 1].op);
    }
  }

  lemma CodeLength(p: Program, code: Data)
    requires IsCode(p, code)
    ensures |code| == |Encode(p)| + 1
  {
  }
}
