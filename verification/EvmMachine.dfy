/** eth_vm.c: the machine that decodes and executes the stack instructions. */
module EvmMachine {
  import opened Bits
  import opened Shifting
  import opened Uint128
  import opened Uint256
  import opened EvmModel

  /** A stack slot holds the four limbs by value. */
  datatype Word = Word(uu: u64, ul: u64, lu: u64, ll: u64) {
    function Value(): (v: nat)
      ensures v < B256
    {
      (uu * B64 + ul) * B128 + (lu * B64 + ll)
    }
  }

  function WordOf(n: U256): (w: Word)
    reads n.upper, n.lower
    ensures w.Value() == n.Value()
  {
    Word(n.upper.upper, n.upper.lower, n.lower.upper, n.lower.lower)
  }

  ghost function ValuesOf(a: seq<Word>): (s: Slots)
    ensures |s| == |a| && Words(s)
  {
    seq(|a|, i requires 0 <= i < |a| => a[i].Value())
  }

  const STOP: u8 := 0x00
  const RETURN: int := 0xf3
  const GAS_LIMIT: nat := 16000000

  class Machine {
    var PC: nat
    var SP: int
    const STACK: array<Word>
    var GasCharge: u32

    /** STACK's words and the one behind them, which is STORAGE[0] in the structure; SP is -1 once slot 0 is popped. */
    ghost predicate Valid()
      reads `SP
    {
      STACK.Length == STACK_SPACE + 1 && -1 <= SP <= STACK_SPACE
    }

    /** Slots 0 .. SP; pushes start at slot 1. */
    ghost function Slots(): (s: Slots)
      requires Valid()
      reads `SP, STACK
      ensures |s| == SP + 1 && Words(s)
    {
      ValuesOf(STACK[..SP + 1])
    }

    ghost function Stack(): (s: Slots)
      requires Valid()
      reads `SP, STACK
      ensures SP >= 0 ==> |s| == SP
      ensures Words(s)
    {
      if SP >= 0 then Slots()[1..] else []
    }

    constructor InitMachine()
      ensures Valid() && Stack() == [] && PC == 0 && SP == 0 && GasCharge == 0 && fresh(STACK)
      ensures STACK.Length == 96 + 1
    {
      PC, SP, GasCharge := 0, 0, 0;
      STACK := new Word[STACK_SPACE + 1];
    }

    /** Refuses only when the stack is past its array already: the push before that, at SP == STACK_SPACE - 1,
        is the one that goes to the word behind it. */
    method StackPush(item: Word)
      requires Valid()
      modifies `SP, STACK
      ensures Valid() && Slots() == if old(SP) >= STACK_SPACE then old(Slots()) else old(Slots()) + [item.Value()]
      ensures old(SP) >= STACK_SPACE ==> SP == old(SP) && unchanged(STACK)
      ensures STACK[STACK_SPACE] == if old(SP) == STACK_SPACE - 1 then item else old(STACK[STACK_SPACE])
    {
      if SP < STACK_SPACE {
        ghost var s := STACK[..SP + 1];
        SP := SP + 1;
        STACK[SP] := item;
        assert STACK[..SP + 1] == s + [item];
      }
    }

    /** Pops whatever is in slot SP, slot 0 included. */
    method StackPop() returns (tmp: U256)
      requires Valid() && SP >= 0
      modifies `SP
      ensures Valid() && Slots() == old(Slots())[..old(SP)]
      ensures tmp.Valid() && tmp.Value() == old(Slots())[old(SP)]
      ensures fresh(tmp) && fresh(tmp.upper) && fresh(tmp.lower)
    {
      var w := STACK[SP];
      tmp := new U256(w.uu, w.ul, w.lu, w.ll);
      SP := SP - 1;
    }

    method Charge(gas: nat)
      modifies `GasCharge
      ensures GasCharge == (old(GasCharge) + gas) % B32
    {
      GasCharge := (GasCharge + gas) % B32;
    }

    // ---- PUSH ------------------------------------------------------------------------

    /** The loop that assembles a limb: it advances PC before each byte. */
    method ReadLimb(code: seq<u8>, count: nat) returns (element: u64)
      requires count <= 8 && PC + count < |code|
      modifies `PC
      ensures PC == old(PC) + count
      ensures element == Be(code[old(PC) + 1..old(PC) + 1 + count])
    {
      hide Be, Bitwise, ShlMod;
      ghost var start := PC + 1;
      BeNothing();
      assert code[start..start] == [];
      element := 0;
      for i := 0 to count
        invariant PC == start - 1 + i && element == Be(code[start..start + i])
      {
        PC := PC + 1;
        ghost var d := code[start..start + i];
        assert code[start..start + i + 1] == d + [code[PC]];
        BeNext(d, code[PC], element);
        element := Bitwise(OrFn, ShlMod(element, 8, B64), code[PC]);
      }
    }

    /** PUSH1 .. PUSH8: one limb. */
    method PushOneLimb(n: nat, code: seq<u8>) returns (w: Word)
      requires 1 <= n <= 8 && PC + n < |code|
      modifies `PC
      ensures PC == old(PC) + n
      ensures w.Value() == AsCoded.Pushed(code[old(PC) + 1..old(PC) + 1 + n])
    {
      hide Be, Semantics.Pushed;
      var elementLowLow := ReadLimb(code, n);
      w := Word(0, 0, 0, elementLowLow);
      PushedOne(code[old(PC) + 1..old(PC) + 1 + n], w);
    }

    /** PUSH9 .. PUSH16: the upper of the two limbs goes to the lower half of the upper 128 bits. */
    method PushTwoLimbs(n: nat, code: seq<u8>) returns (w: Word)
      requires 9 <= n <= 16 && PC + n < |code|
      modifies `PC
      ensures PC == old(PC) + n
      ensures w.Value() == AsCoded.Pushed(code[old(PC) + 1..old(PC) + 1 + n])
    {
      hide Be, Semantics.Pushed;
      ghost var at := PC + 1;
      var elementLowUpp := ReadLimb(code, n - 8);
      var elementLowLow := ReadLimb(code, 8);
      w := Word(0, elementLowUpp, 0, elementLowLow);
      PushedTwo(code[at..at + (n - 8)], code[at + (n - 8)..at + n], w);
      assert code[at..at + n] == code[at..at + (n - 8)] + code[at + (n - 8)..at + n];
    }

    method PushThreeLimbs(n: nat, code: seq<u8>) returns (w: Word)
      requires 17 <= n <= 24 && PC + n < |code|
      modifies `PC
      ensures PC == old(PC) + n
      ensures w.Value() == AsCoded.Pushed(code[old(PC) + 1..old(PC) + 1 + n])
    {
      hide Be, Semantics.Pushed;
      ghost var at := PC + 1;
      var elementUppLow := ReadLimb(code, n - 16);
      var elementLowUpp := ReadLimb(code, 8);
      var elementLowLow := ReadLimb(code, 8);
      w := Word(0, elementLowUpp, elementUppLow, elementLowLow);
      ghost var b, c := at + (n - 16), at + (n - 8);
      PushedThree(code[at..b], code[b..c], code[c..at + n], w);
      assert code[at..at + n] == code[at..b] + code[b..c] + code[c..at + n];
    }

    method PushFourLimbs(n: nat, code: seq<u8>) returns (w: Word)
      requires 25 <= n <= 32 && PC + n < |code|
      modifies `PC
      ensures PC == old(PC) + n
      ensures w.Value() == AsCoded.Pushed(code[old(PC) + 1..old(PC) + 1 + n])
    {
      hide Be, Semantics.Pushed;
      ghost var at := PC + 1;
      var elementUppUpp := ReadLimb(code, n - 24);
      var elementUppLow := ReadLimb(code, 8);
      var elementLowUpp := ReadLimb(code, 8);
      var elementLowLow := ReadLimb(code, 8);
      w := Word(elementUppUpp, elementLowUpp, elementUppLow, elementLowLow);
      ghost var b, c, e := at + (n - 24), at + (n - 16), at + (n - 8);
      PushedFour(code[at..b], code[b..c], code[c..e], code[e..at + n], w);
      assert code[at..at + n] == code[at..b] + code[b..c] + code[c..e] + code[e..at + n];
    }

    method PushBytes(n: nat, code: seq<u8>) returns (status: int)
      requires Valid() && 1 <= n <= 32 && PC + n < |code|
      modifies this, STACK
      ensures Valid()
      ensures old(SP) + n >= STACK_SPACE ==> status == -1 && unchanged(this) && unchanged(STACK)
      ensures old(SP) + n < STACK_SPACE ==>
        && status == 0 && PC == old(PC) + n
        && GasCharge == (old(GasCharge) + Push(n).Gas()) % B32
        && Slots() == AsCoded.Exec(Push(n), code[old(PC) + 1..old(PC) + 1 + n], old(Slots()))
    {
      hide Semantics.Pushed;
      if SP + n >= STACK_SPACE {
        return -1;
      }
      var w: Word;
      if n <= 8 {
        w := PushOneLimb(n, code);
      } else if n <= 16 {
        w := PushTwoLimbs(n, code);
      } else if n <= 24 {
        w := PushThreeLimbs(n, code);
      } else {
        w := PushFourLimbs(n, code);
      }
      StackPush(w);
      Charge(2);
      status := 0;
    }

    // ---- DUP, SWAP -------------------------------------------------------------------

    method Duplicate(n: nat)
      requires Valid() && 1 <= n <= 16
      modifies `SP, STACK
      ensures Valid()
      ensures old(SP) >= STACK_SPACE ==> SP == old(SP) && unchanged(STACK)
      ensures Slots() == if old(SP) >= STACK_SPACE then old(Slots()) else AsCoded.Exec(Dup(n), [], old(Slots()))
    {
      var indexToClone := SP - (n - 1);
      if indexToClone >= 0 {
        StackPush(STACK[indexToClone]);
      }
    }

    method Exchange(n: nat)
      requires Valid() && 1 <= n <= 16
      modifies STACK
      ensures Valid() && Slots() == AsCoded.Exec(Swap(n), [], old(Slots()))
    {
      var swapOffset := SP - n;
      if !(swapOffset < 0 || swapOffset > STACK_SPACE) {
        var tempStore := STACK[SP];
        STACK[SP] := STACK[swapOffset];
        STACK[swapOffset] := tempStore;
      }
    }

    // ---- Arithmetic and logic --------------------------------------------------------

    method UnaryInstruction(op: Op)
      requires Valid() && (op == IsZero || op == Not) && SP >= 0
      modifies this, STACK
      ensures Valid() && PC == old(PC) && GasCharge == (old(GasCharge) + op.Gas()) % B32
      ensures Slots() == AsCoded.Exec(op, [], old(Slots()))
    {
      hide Machine.Slots, Semantics.Exec, U256.Value;
      ghost var s := Slots();
      var top := StackPop();
      ghost var a := top.Value();
      var w: Word;
      if op == IsZero {
        w := FlagWord(Zero256(top));
      } else {
        Not256(top);
        w := WordOf(top);
      }
      StackPush(w);
      UnaryExec(op, s, a, w.Value());
      Charge(3);
    }

    method BinaryInstruction(op: Op)
      requires Valid() && op.Binary() && SP >= 1
      modifies this, STACK
      ensures Valid() && PC == old(PC) && GasCharge == (old(GasCharge) + op.Gas()) % B32
      ensures Slots() == AsCoded.Exec(op, [], old(Slots()))
    {
      hide Machine.Slots, Semantics.Exec, Semantics.Result, U256.Value;
      ghost var s := Slots();
      var number1 := StackPop();
      var number2 := StackPop();
      var target := Compute(op, number1, number2);
      StackPush(target);
      BinaryExec(op, s, target.Value());
      if op != Sub {
        Charge(3);
      }
    }

    // ---- The interpreter -------------------------------------------------------------

    /** decode_instruction, for the opcodes modelled. */
    method DecodeInstruction(c: u8, code: seq<u8>) returns (status: int)
      requires Valid() && Modelled(c)
      requires OpOf(c).Push? ==> PC + OpOf(c).n < |code|
      requires OpOf(c).Push? || OpOf(c).Dup? || OpOf(c).Swap? || SP + 1 >= OpOf(c).Inputs()
      requires PC + OpOf(c).Immediate() < |code|
      modifies this, STACK
      ensures Valid()
      ensures OpOf(c).Push? && old(SP) + OpOf(c).n >= STACK_SPACE ==>
        status == -1 && unchanged(this) && unchanged(STACK)
      ensures OpOf(c).Dup? && old(SP) >= STACK_SPACE ==> status == 0 && unchanged(this) && unchanged(STACK)
      ensures (OpOf(c).Dup? && old(SP) >= STACK_SPACE) || (OpOf(c).Push? && old(SP) + OpOf(c).n >= STACK_SPACE) ||
        (&& status == 0 && PC == old(PC) + OpOf(c).Immediate()
         && GasCharge == (old(GasCharge) + OpOf(c).Gas()) % B32
         && Slots() == AsCoded.Exec(OpOf(c), code[old(PC) + 1..old(PC) + 1 + OpOf(c).Immediate()], old(Slots())))
    {
      hide OpOf, Machine.Slots, Semantics.Pushed, Semantics.Result;
      ghost var s := Slots();
      var op := OpOf(c);
      status := 0;
      match op
      case Push(n) => status := PushBytes(n, code);
      case Dup(n) => Duplicate(n);
      case Swap(n) => Exchange(n);
      case Pop =>
        var dropped := StackPop();
        Charge(2);
      case IsZero => UnaryInstruction(op);
      case Not => UnaryInstruction(op);
      case _ => BinaryInstruction(op);
    }

    /** execute_contract on a straight-line program, up to its end or until the gas is used up: m instructions are executed. */
    method ExecuteContract(code: seq<u8>, ghost p: Program) returns (ghost m: nat)
      requires Valid() && SP == 0 && PC == 0 && GasCharge == 0
      requires IsCode(p, code) && Fits(p, 0)
      modifies this, STACK
      ensures Valid() && m <= |p| && Fits(p[..m], 0) && Stack() == Run(AsCoded, p[..m], [])
      ensures PC == |Encode(p[..m])| && GasCharge == GasOf(p[..m])
      ensures m == |p| || GasOf(p[..m]) > 16000000
      ensures forall i :: 0 <= i < m ==> GasOf(p[..i]) <= 16000000
    {
      hide Encode, Fits, GasOf, Run, Machine.Slots, OpOf, Modelled, Semantics.Exec, IsCode;
      m := 0;
      EmptyStart(p);
      CodeLength(p, code);
      while PC < |code| - 1
        invariant Valid() && m <= |p| && SP == |Stack()| && PC == |Encode(p[..m])| < |code|
        invariant GasCharge == GasOf(p[..m]) && Fits(p[..m], 0) && Stack() == Run(AsCoded, p[..m], [])
        invariant forall i :: 0 <= i < m ==> GasOf(p[..i]) <= GAS_LIMIT
        decreases |code| - PC
      {
        assert m < |p| by {
          CodeLength(p, code);
          assert p[..|p|] == p;
        }
        NextStep(p, m, code);
        OpCodeDecodes(p[m].op);
        if GasCharge > GAS_LIMIT {
          return;
        }
        ghost var s, op := Slots(), p[m].op;
        ExecAboveFirst(op, p[m].data, s);
        var status := DecodeInstruction(code[PC], code);
        if status == RETURN {
          break;
        }
        if status < 0 {
          break;
        }
        PC := PC + 1;
        m := m + 1;
        if code[PC] == STOP {
          break;
        }
      }
      if m < |p| {
        NextStep(p, m, code);
        CodeLength(p, code);
      }
    }
  }

  lemma UnaryExec(op: Op, s: Slots, a: nat, v: nat)
    requires (op == IsZero || op == Not) && |s| >= 1 && Words(s) && a == s[|s| - 1]
    requires v == if op == IsZero then (if a == 0 then 1 else 0) else B256 - 1 - a
    ensures AsCoded.Exec(op, [], s) == s[..|s| - 1] + [v]
  {
  }

  lemma BinaryExec(op: Op, s: Slots, v: nat)
    requires op.Binary() && |s| >= 2 && Words(s) && v == AsCoded.Result(op, s[|s| - 1], s[|s| - 2])
    ensures AsCoded.Exec(op, [], s) == s[..|s| - 1][..|s| - 2] + [v]
  {
    hide Semantics.Result;
    assert s[..|s| - 1][..|s| - 2] == s[..|s| - 2];
  }

  method FlagWord(flag: bool) returns (w: Word)
    ensures w.Value() == if flag then 1 else 0
  {
    w := Word(0, 0, 0, if flag then 1 else 0);
  }

  predicate Comparison(op: Op) {
    op == Lt || op == Gt || op == Eq
  }

  /** The body of each two-operand case: number1 was on top. */
  method Compute(op: Op, number1: U256, number2: U256) returns (w: Word)
    requires op.Binary() && number1.Valid() && number2.Valid() && Disjoint(number1, number2)
    ensures w.Value() == AsCoded.Result(op, number1.Value(), number2.Value())
  {
    hide Semantics.Result, Word.Value, U256.Value;
    if Comparison(op) {
      w := Compare(op, number1, number2);
    } else {
      var target := new U256(0, 0, 0, 0);
      Calculate(op, number1, number2, target);
      w := WordOf(target);
    }
  }

  method Compare(op: Op, number1: U256, number2: U256) returns (w: Word)
    requires Comparison(op)
    ensures w.Value() == AsCoded.Result(op, number1.Value(), number2.Value())
  {
    hide Word.Value, U256.Value;
    match op {
      case Lt => w := FlagWord(Gt256(number2, number1));
      case Gt => w := FlagWord(Gt256(number1, number2));
      case Eq => w := FlagWord(Equal256(number1, number2));
    }
  }

  method Calculate(op: Op, number1: U256, number2: U256, target: U256)
    requires op.Binary() && !Comparison(op)
    requires number1.Valid() && number2.Valid() && target.Valid()
    requires Disjoint(number1, number2) && Disjoint(number1, target) && Disjoint(number2, target)
    modifies target.upper, target.lower
    ensures target.Value() == AsCoded.Result(op, old(number1.Value()), old(number2.Value()))
  {
    hide Bitwise, ShlMod, Bits.Shr, ByteAt, AddMod, SubMod, U256.Value;
    match op {
      case Add => Add256(number1, number2, target);
      case Sub => Minus256(number1, number2, target);
      case And => Bitwise256(AndFn, number1, number2, target);
      case Or => Bitwise256(OrFn, number1, number2, target);
      case Xor => Bitwise256(XorFn, number1, number2, target);
      case Shl => ShiftL256(number2, LowWord(number1), target);
      case Shr => ShiftR256(number2, LowWord(number1), target);
      case Byte => SelectByte(number1, number2, target);
    }
  }

  /** (uint32_t) LOWER(LOWER(n)). */
  function LowWord(n: U256): (v: u32)
    reads n.upper, n.lower
    ensures v == n.Value() % B32
  {
    LowWordOf(n.upper.Value(), n.lower.upper, n.lower.lower);
    n.lower.lower % B32
  }

  lemma LowWordOf(u: nat, lu: nat, ll: nat)
    ensures (u * B128 + (lu * B64 + ll)) % B32 == ll % B32
  {
    DivUnique(u * B128 + (lu * B64 + ll), B32,
              u * 0x1_0000_0000_0000_0000_0000_0000 + lu * B32 + ll / B32, ll % B32);
  }

  method SelectByte(i: U256, x: U256, target: U256)
    requires Apart(x, target) && Disjoint(i, target) && i.Valid() && target.Valid()
    requires Disjoint(i, x) && Disjoint(x, target)
    modifies target.upper, target.lower
    ensures target.Value() == AsCoded.Result(Byte, old(i.Value()), old(x.Value()))
  {
    hide Bitwise, Bits.Shr, ByteAt, U128.Value;
    CodedByte(i.Value(), x.Value());
    var shiftValue := (248 - LowWord(i) * 8) % B32;
    ShiftR256(x, shiftValue, target);
    var mask := new U256(0, 0, 0, 0xFF);
    MaskByte(target.Value());
    Bitwise256(AndFn, target, mask, target);
  }

  lemma MaskByte(v: nat)
    ensures Bitwise(AndFn, v, 0xFF) == v % 256
  {
    Pow2At8();
    AndMask(v, 8);
  }

  // ---- The words that PUSH assembles ---------------------------------------------------

  lemma BeNothing()
    ensures Be([]) == 0
  {
  }

  /** element << 8 | b, while the eighth byte is not yet in. */
  lemma BeNext(d: Data, b: u8, element: u64)
    requires |d| < 8 && element == Be(d)
    ensures Bitwise(OrFn, ShlMod(element, 8, B64), b) == Be(d + [b])
    ensures Be(d + [b]) < B64
  {
    hide Be, Pow2, Bitwise;
    BeShort(d + [b]);
    BeLast(d, b);
    Pow2At8();
    DivUnique(element * 256, B64, 0, element * 256);
    BitwiseZero(OrFn, element);
    BitwiseZero(OrFn, b);
    BitwiseSplit(OrFn, 8, 0, element, b, 0);
  }

  lemma PushedLimbs(v: nat, w: Word)
    requires v == OfLimbs(w.uu, w.lu, w.ul, w.ll)
    ensures w.Value() == MiddleSwapped(v)
  {
    LimbsAre(w.uu, w.lu, w.ul, w.ll);
  }

  lemma PushedOne(d: Data, w: Word)
    requires w.uu == 0 && w.ul == 0 && w.lu == 0 && w.ll == Be(d)
    ensures w.Value() == AsCoded.Pushed(d)
  {
    hide Be, MiddleSwapped;
    PushedLimbs(Be(d), w);
  }

  lemma PushedTwo(d1: Data, d0: Data, w: Word)
    requires |d0| == 8
    requires w.uu == 0 && w.ul == Be(d1) && w.lu == 0 && w.ll == Be(d0)
    ensures w.Value() == AsCoded.Pushed(d1 + d0)
  {
    hide Be, MiddleSwapped;
    BeLimb(d1, d0);
    PushedLimbs(Be(d1 + d0), w);
  }

  lemma PushedThree(d2: Data, d1: Data, d0: Data, w: Word)
    requires |d1| == 8 && |d0| == 8
    requires w.uu == 0 && w.ul == Be(d1) && w.lu == Be(d2) && w.ll == Be(d0)
    ensures w.Value() == AsCoded.Pushed(d2 + d1 + d0)
  {
    hide Be, MiddleSwapped;
    BeLimb(d2, d1);
    BeLimb(d2 + d1, d0);
    PushedLimbs(Be(d2 + d1 + d0), w);
  }

  lemma PushedFour(d3: Data, d2: Data, d1: Data, d0: Data, w: Word)
    requires |d2| == 8 && |d1| == 8 && |d0| == 8
    requires w.uu == Be(d3) && w.ul == Be(d1) && w.lu == Be(d2) && w.ll == Be(d0)
    ensures w.Value() == AsCoded.Pushed(d3 + d2 + d1 + d0)
  {
    hide Be, MiddleSwapped;
    BeLimb(d3, d2);
    BeLimb(d3 + d2, d1);
    BeLimb(d3 + d2 + d1, d0);
    PushedLimbs(Be(d3 + d2 + d1 + d0), w);
  }
}
