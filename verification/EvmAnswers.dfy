/** The stacks and the gas that literal byte codes leave, in both semantics and on the machine. */
module EvmAnswers {
  import opened Bits
  import opened EvmModel
  import EvmMachine

  // ---- What an instruction means, without its own clause -------------------------------

  /** What SUB leaves, added to the item that was below the top, is the top again. */
  lemma SubtractsBelow(a: nat, b: nat)
    requires a < B256 && b < B256
    ensures AddMod(YellowPaper.Result(Sub, a, b), b, B256) == a
  {
    SubModIs(a, b, B256);
    AddModIs(SubMod(a, b, B256), b, B256);
  }

  /** BYTE i of a word is byte i from its most significant end. */
  lemma ByteOfWord(d: Data, i: nat)
    requires |d| == 32 && i < 32
    ensures YellowPaper.Result(Byte, i, Be(d)) == d[i]
  {
    hide Be, Pow2;
    var high, low := d[..i + 1], d[i + 1..];
    var k := 248 - 8 * i;
    assert high + low == d && 8 * |low| == k;
    BeConcat(high, low);
    BeBound(low);
    DivUnique(Be(d), Pow2(k), Be(high), Be(low));
    assert high == d[..i] + [d[i]];
    BeLast(d[..i], d[i]);
    DivUnique(Be(high), 256, Be(d[..i]), d[i]);
  }

  // ---- Programs by their bytes ---------------------------------------------------------

  /** p has these bytes, and leaves s in both semantics, for this much gas. */
  ghost predicate Leads(p: Program, bytes: Data, s: Slots, gas: nat) {
    && Fits(p, 0) && Encode(p) == bytes && GasOf(p) == gas
    && Run(AsCoded, p, []) == s && Run(YellowPaper, p, []) == s
  }

  ghost predicate Leaves(bytes: Data, s: Slots, gas: nat) {
    exists p: Program :: Leads(p, bytes, s, gas)
  }

  lemma NothingYet()
    ensures Leaves([], [], 0)
  {
    var p: Program := [];
    assert Leads(p, [], [], 0);
  }

  /** One instruction more. */
  lemma Next(bytes: Data, s: Slots, gas: nat, op: Op, d: Data)
    requires Leaves(bytes, s, gas) && op.WellFormed() && |d| == op.Immediate()
    requires Words(s) && op.Inputs() <= |s| && |s| + (if op.Push? then op.n else op.Growth()) < STACK_SPACE
    requires AsCoded.Exec(op, d, s) == YellowPaper.Exec(op, d, s)
    ensures Leaves(bytes + [op.OpCode()] + d, AsCoded.Exec(op, d, s), gas + op.Gas())
  {
    hide Semantics.Exec, Op.OpCode, Leads;
    var p: Program :| Leads(p, bytes, s, gas);
    NextOf(p, bytes, s, gas, Instr(op, d));
  }

  lemma NextOf(p: Program, bytes: Data, s: Slots, gas: nat, i: Instr)
    requires Leads(p, bytes, s, gas) && i.WellFormed()
    requires Words(s) && i.op.Inputs() <= |s|
    requires |s| + (if i.op.Push? then i.op.n else i.op.Growth()) < STACK_SPACE
    requires AsCoded.Exec(i.op, i.data, s) == YellowPaper.Exec(i.op, i.data, s)
    ensures Leads(p + [i], bytes + [i.op.OpCode()] + i.data, AsCoded.Exec(i.op, i.data, s), gas + i.op.Gas())
  {
    hide Semantics.Exec, Op.OpCode;
    var q: Program := p + [i];
    assert Front(q) == p;
    assert bytes + ([i.op.OpCode()] + i.data) == bytes + [i.op.OpCode()] + i.data;
  }

  /** PUSHn is 60 .. 7F; it pushes its bytes' value when the two middle limbs of that are equal. */
  lemma PushCode(bytes: Data, s: Slots, gas: nat, d: Data)
    requires Leaves(bytes, s, gas) && Words(s) && 1 <= |d| <= 32 && |s| + |d| < 96
    requires |d| <= 8 || Limb(Be(d), 1) == Limb(Be(d), 2)
    ensures Leaves(bytes + [0x5F + |d|] + d, s + [Be(d)], gas + 2)
  {
    hide Leaves, Be, Limb, Semantics.Exec;
    PushedAgrees(d);
    PushExec(d, s);
    Next(bytes, s, gas, Push(|d|), d);
  }

  lemma PushExec(d: Data, s: Slots)
    requires 1 <= |d| <= 32 && Words(s) && AsCoded.Pushed(d) == YellowPaper.Pushed(d)
    ensures AsCoded.Exec(Push(|d|), d, s) == s + [Be(d)] && YellowPaper.Exec(Push(|d|), d, s) == s + [Be(d)]
  {
    hide Be, MiddleSwapped;
  }

  /** DUPn is 80 .. 8F. */
  lemma DupCode(bytes: Data, s: Slots, gas: nat, n: nat)
    requires Leaves(bytes, s, gas) && Words(s) && 1 <= n <= 16 && n <= |s| < 95
    ensures Leaves(bytes + [0x7F + n], s + [s[|s| - n]], gas)
  {
    hide Leaves;
    NextPlain(bytes, s, gas, Dup(n));
  }

  /** SWAPn is 90 .. 9F; it exchanges the top with the n-th item below it. */
  lemma SwapCode(bytes: Data, s: Slots, gas: nat, n: nat)
    requires Leaves(bytes, s, gas) && Words(s) && 1 <= n <= 16 && n < |s| < 96
    ensures
      var k := |s| - 1;
      Leaves(bytes + [0x8F + n], s[..k - n] + [s[k]] + s[k - n + 1..k] + [s[k - n]], gas)
  {
    hide Leaves;
    NextPlain(bytes, s, gas, Swap(n));
    var k := |s| - 1;
    assert s[k := s[k - n]][k - n := s[k]] == s[..k - n] + [s[k]] + s[k - n + 1..k] + [s[k - n]];
  }

  lemma NextPlain(bytes: Data, s: Slots, gas: nat, op: Op)
    requires Leaves(bytes, s, gas) && Words(s) && op.WellFormed() && AlwaysPlain(Instr(op, [])) && !op.Push?
    requires op.Inputs() <= |s| && |s| + op.Growth() < STACK_SPACE
    ensures Leaves(bytes + [op.OpCode()], AsCoded.Exec(op, [], s), gas + op.Gas())
  {
    hide Leaves, Semantics.Exec, Op.OpCode;
    var none: Data := [];
    ExecAgrees(op, none, s);
    Next(bytes, s, gas, op, none);
    assert bytes + [op.OpCode()] + none == bytes + [op.OpCode()];
  }

  lemma OperatorCode(bytes: Data, gas: nat, below: Slots, b: nat, a: nat, op: Op)
    requires Leaves(bytes, below + [b, a], gas) && Words(below + [b, a]) && |below| < 95
    requires op.Binary() && AlwaysPlain(Instr(op, []))
    ensures Leaves(bytes + [op.OpCode()], below + [AsCoded.Result(op, a, b)], gas + op.Gas())
  {
    hide Leaves, Semantics.Result, Op.OpCode;
    var s := below + [b, a];
    assert a == s[|below| + 1] && b == s[|below|] && s[..|below|] == below;
    NextPlain(bytes, s, gas, op);
  }

  /** ADD, LT, GT and EQ of the top a and the item b below it. */
  lemma ArithmeticCodes(bytes: Data, gas: nat, below: Slots, b: nat, a: nat)
    requires Leaves(bytes, below + [b, a], gas) && Words(below + [b, a]) && |below| < 95
    ensures Leaves(bytes + [0x01], below + [(a + b) % B256], gas + 3)
    ensures Leaves(bytes + [0x10], below + [if a < b then 1 else 0], gas + 3)
    ensures Leaves(bytes + [0x11], below + [if a > b then 1 else 0], gas + 3)
    ensures Leaves(bytes + [0x14], below + [if a == b then 1 else 0], gas + 3)
  {
    hide Leaves;
    OperatorCode(bytes, gas, below, b, a, Add);
    OperatorCode(bytes, gas, below, b, a, Lt);
    OperatorCode(bytes, gas, below, b, a, Gt);
    OperatorCode(bytes, gas, below, b, a, Eq);
  }

  /** SUB leaves what the item b below the top is to be increased by to give the top. */
  lemma SubCode(bytes: Data, gas: nat, below: Slots, b: nat, v: nat)
    requires b < B256 && v < B256 && |below| < 95
    requires Leaves(bytes, below + [b, (v + b) % B256], gas) && Words(below + [b, (v + b) % B256])
    ensures Leaves(bytes + [0x03], below + [v], gas)
  {
    hide Leaves;
    var a := (v + b) % B256;
    OperatorCode(bytes, gas, below, b, a, Sub);
    AddModIs(v, b, B256);
    SubModIs(a, b, B256);
  }

  lemma UnaryCode(bytes: Data, gas: nat, below: Slots, a: nat, op: Op)
    requires a < B256 && Leaves(bytes, below + [a], gas) && Words(below + [a]) && |below| < 95
    requires op == IsZero || op == Not || op == Pop
    ensures Leaves(bytes + [op.OpCode()],
                   if op == Pop then below else below + [if op == Not then B256 - 1 - a else if a == 0 then 1 else 0],
                   gas + op.Gas())
  {
    hide Leaves, Op.OpCode;
    var s := below + [a];
    assert a == s[|below|] && s[..|below|] == below;
    NextPlain(bytes, s, gas, op);
  }

  /** ISZERO, NOT and POP of the top a. */
  lemma UnaryCodes(bytes: Data, gas: nat, below: Slots, a: nat)
    requires a < B256 && Leaves(bytes, below + [a], gas) && Words(below + [a]) && |below| < 95
    ensures Leaves(bytes + [0x15], below + [if a == 0 then 1 else 0], gas + 3)
    ensures Leaves(bytes + [0x19], below + [B256 - 1 - a], gas + 3)
    ensures Leaves(bytes + [0x50], below, gas + 2)
  {
    hide Leaves;
    UnaryCode(bytes, gas, below, a, IsZero);
    UnaryCode(bytes, gas, below, a, Not);
    UnaryCode(bytes, gas, below, a, Pop);
  }

  // ---- Literal byte codes --------------------------------------------------------------

  lemma TwoPushed(x: u8, y: u8)
    ensures Leaves([0x60, x, 0x60, y], [x, y], 4)
  {
    hide Leaves, Be;
    NothingYet();
    OneByte(x);
    OneByte(y);
    var none: Data, empty: Slots := [], [];
    PushCode(none, empty, 0, [x]);
    assert none + [0x60] + [x] == [0x60, x] && empty + [x] == [x];
    PushCode([0x60, x], [x], 2, [y]);
    assert [0x60, x] + [0x60] + [y] == [0x60, x, 0x60, y] && [x] + [y] == [x, y];
  }

  lemma OneByte(x: u8)
    ensures Be([x]) == x
  {
    var none: Data := [];
    assert [x][..0] == none;
  }

  lemma TwoPushedThen(op: Op, x: u8, y: u8)
    requires op.Binary() && Plain(op, y, x)
    ensures Leaves([0x60, x, 0x60, y, op.OpCode()], [AsCoded.Result(op, y, x)], 4 + op.Gas())
  {
    hide Leaves, Semantics.Result, Op.OpCode;
    TwoPushed(x, y);
    var s: Slots, none: Slots, d: Data := [x, y], [], [];
    ExecAgrees(op, d, s);
    Next([0x60, x, 0x60, y], s, 4, op, d);
    assert [0x60, x, 0x60, y] + [op.OpCode()] + d == [0x60, x, 0x60, y, op.OpCode()];
    assert s[..0] == none && none + [AsCoded.Result(op, y, x)] == [AsCoded.Result(op, y, x)];
  }

  /** 5 - 3, 3 + 5, 5 < 3, 5 > 3 and 5 = 3. */
  lemma KnownArithmetic()
    ensures Leaves([0x60, 3, 0x60, 5, 0x03], [2], 4)
    ensures Leaves([0x60, 3, 0x60, 5, 0x01], [8], 7)
    ensures Leaves([0x60, 3, 0x60, 5, 0x10], [0], 7)
    ensures Leaves([0x60, 3, 0x60, 5, 0x11], [1], 7)
    ensures Leaves([0x60, 3, 0x60, 5, 0x14], [0], 7)
  {
    hide Leaves;
    TwoPushedThen(Sub, 3, 5);
    TwoPushedThen(Add, 3, 5);
    TwoPushedThen(Lt, 3, 5);
    TwoPushedThen(Gt, 3, 5);
    TwoPushedThen(Eq, 3, 5);
  }

  /** 6 and, or, exclusive or 5. */
  lemma KnownBitwise()
    ensures Leaves([0x60, 5, 0x60, 6, 0x16], [4], 7)
    ensures Leaves([0x60, 5, 0x60, 6, 0x17], [7], 7)
    ensures Leaves([0x60, 5, 0x60, 6, 0x18], [3], 7)
  {
    hide Leaves, Bitwise;
    TwoPushedThen(And, 5, 6);
    TwoPushedThen(Or, 5, 6);
    TwoPushedThen(Xor, 5, 6);
    ThreeBits(AndFn);
    ThreeBits(OrFn);
    ThreeBits(XorFn);
  }

  lemma ThreeBits(fn: BitFn)
    ensures Bitwise(fn, 6, 5) == 4 * fn.OnBits(1, 1) + 2 * fn.OnBits(1, 0) + fn.OnBits(0, 1)
  {
    hide Bitwise;
    BitwiseUnfold(fn, 6, 5);
    BitwiseUnfold(fn, 3, 2);
    BitwiseUnfold(fn, 1, 1);
    BitwiseZero(fn, 0);
  }

  /** 3 shifted left by 4, 48 shifted right by 4, and byte 31 of 7. */
  lemma KnownShifts()
    ensures Leaves([0x60, 3, 0x60, 4, 0x1b], [48], 7)
    ensures Leaves([0x60, 48, 0x60, 4, 0x1c], [3], 7)
    ensures Leaves([0x60, 7, 0x60, 31, 0x1a], [7], 7)
  {
    hide Leaves, Pow2;
    TwoPushedThen(Shl, 3, 4);
    TwoPushedThen(Shr, 48, 4);
    TwoPushedThen(Byte, 7, 31);
    SmallPowers();
  }

  lemma SmallPowers()
    ensures Pow2(0) == 1 && Pow2(4) == 16
  {
  }

  // ---- On the machine ------------------------------------------------------------------

  /** A fresh machine runs such bytes, with one byte behind them, to that stack and charges that gas. */
  method Executed(code: Data, ghost s: Slots, ghost gas: nat) returns (machine: EvmMachine.Machine)
    requires |code| > 0 && Leaves(code[..|code| - 1], s, gas) && gas <= 16000000
    ensures fresh(machine) && machine.Valid() && machine.Stack() == s && machine.GasCharge == gas
  {
    hide Encode, Fits, GasOf, Run, EvmMachine.Machine.Stack;
    ghost var p: Program :| Leads(p, code[..|code| - 1], s, gas);
    machine := new EvmMachine.Machine.InitMachine();
    ghost var m := machine.ExecuteContract(code, p);
    Prefix(p, m, 0);
    assert p[..|p|] == p;
  }

  /** 60 03 60 05 03 00 on the machine. */
  method FiveMinusThree() returns (machine: EvmMachine.Machine)
    ensures fresh(machine) && machine.Valid() && machine.Stack() == [2]
  {
    hide Leaves;
    KnownArithmetic();
    var code: Data := [0x60, 3, 0x60, 5, 0x03, 0];
    assert code[..|code| - 1] == [0x60, 3, 0x60, 5, 0x03];
    machine := Executed(code, [2], 4);
  }
}
