/** Radix printing: tostring256 and the in-place reversal it ends with. */
module Radix {
  import opened Bits
  import opened Uint128
  import opened Uint256
  import opened Division

  const HEXDIGITS: string := "0123456789abcdef"

  type Base = b: nat | 2 <= b <= 16 witness 2

  // ---- Digit strings -----------------------------------------------------------------

  /** The digits of n, least significant first; a single 0 for zero. */
  function Digits(n: nat, b: Base): (ds: seq<nat>)
    ensures |ds| > 0
    ensures forall i :: 0 <= i < |ds| ==> ds[i] < b
  {
    [n % b] + (if n / b == 0 then [] else Digits(n / b, b))
  }

  function Text(ds: seq<nat>): (s: string)
    requires forall i :: 0 <= i < |ds| ==> ds[i] < 16
    ensures |s| == |ds|
  {
    if ds == [] then "" else [HexDigit(ds[0])] + Text(ds[1..])
  }

  function HexDigit(d: nat): (c: char)
    requires d < 16
    ensures DigitOf(c) == d
  {
    HEXDIGITS[d]
  }

  function Reversed<T>(s: seq<T>): (r: seq<T>)
    ensures |r| == |s|
    ensures forall i :: 0 <= i < |s| ==> r[i] == s[|s| - 1 - i]
  {
    seq(|s|, i requires 0 <= i < |s| => s[|s| - 1 - i])
  }

  /** What tostring256 prints: the digits, most significant first. */
  function Printed(n: nat, b: Base): string {
    Reversed(Text(Digits(n, b)))
  }

  function DigitOf(c: char): (d: int)
    ensures d < 16
  {
    if '0' <= c <= '9' then c as int - '0' as int
    else if 'a' <= c <= 'f' then c as int - 'a' as int + 10
    else -1
  }

  /** Reads a digit string, most significant digit first; -1 if it is not one. */
  function Parse(s: string, b: Base): (v: int)
    ensures v >= -1
  {
    if s == [] then 0
    else
      var high, d := Parse(s[..|s| - 1], b), DigitOf(s[|s| - 1]);
      if high < 0 || d < 0 || d >= b then -1 else
        MulNonneg(high, b);
        high * b + d
  }

  ghost predicate Canonical(s: string, b: Base) {
    s != [] && Parse(s, b) >= 0 && (s[0] == '0' ==> s == "0")
  }

  lemma HexOfDigit(c: char)
    requires DigitOf(c) >= 0
    ensures HexDigit(DigitOf(c)) == c
  {
    assert HEXDIGITS[DigitOf(c)] == c;
  }

  lemma PrintedStep(n: nat, b: Base)
    ensures Printed(n, b) == (if n / b == 0 then "" else Printed(n / b, b)) + [HexDigit(n % b)]
  {
    var ds := Digits(n, b);
    var rest := if n / b == 0 then [] else Digits(n / b, b);
    assert ds == [n % b] + rest;
    assert Text(ds) == [HexDigit(n % b)] + Text(rest);
    assert Reversed(Text(ds)) == Reversed(Text(rest)) + [HexDigit(n % b)];
  }

  /** The printed string reads back as the number and has no leading zero. */
  lemma {:induction false} PrintedParses(n: nat, b: Base)
    ensures Parse(Printed(n, b), b) == n
    ensures Canonical(Printed(n, b), b)
    ensures Printed(n, b)[0] == '0' <==> n == 0
    decreases n
  {
    hide Printed, Digits, Text;
    var s := Printed(n, b);
    PrintedStep(n, b);
    DivModBase(n, b);
    var high := if n / b == 0 then "" else Printed(n / b, b);
    assert s[..|s| - 1] == high && s[|s| - 1] == HexDigit(n % b);
    if n / b > 0 {
      PrintedParses(n / b, b);
      assert Parse(s, b) == n / b * b + n % b;
    }
  }

  lemma DivModBase(n: nat, b: Base)
    ensures n == n / b * b + n % b && 0 <= n % b < b && (n / b > 0 ==> n / b < n)
  {
    var q := n / b;
    assert n == b * q + n % b;
    if q > 0 {
      MulAtLeast(q, b);
      assert b * q >= 2 * q by { MulMono(q, 2, b); }
    }
  }

  /** Printed is the only canonical digit string of its number. */
  lemma {:induction false} CanonicalIsPrinted(s: string, b: Base)
    requires Canonical(s, b)
    ensures s == Printed(Parse(s, b), b)
    decreases |s|
  {
    hide Printed;
    var high, c := s[..|s| - 1], s[|s| - 1];
    var h, d := Parse(high, b), DigitOf(c);
    HexOfDigit(c);
    MulNonneg(h, b);
    assert Parse(s, b) == h * b + d;
    DivUnique(h * b + d, b, h, d) by { assert b * h == h * b; }
    PrintedStep(h * b + d, b);
    if |s| > 1 {
      assert high[0] == s[0];
      CanonicalIsPrinted(high, b);
      PrintedParses(h, b);
      assert h != 0;
      assert s == high + [c];
    } else {
      assert high == [];
    }
  }

  // ---- The printing loop -------------------------------------------------------------

  /** Whether tostring256 accepts the buffer length: a length of 0 wraps to the largest there is. */
  predicate Accepted(n: nat, b: Base, outLength: u32) {
    outLength == 0 || |Printed(n, b)| <= outLength
  }

  /** How much of the buffer the code writes: nothing for a bad base, all the digits and a terminator, or outLength digits. */
  function Extent(n: nat, baseParam: u32, outLength: u32): nat {
    if !(2 <= baseParam <= 16) then 0
    else if Accepted(n, baseParam, outLength) then |Printed(n, baseParam)| + 1
    else outLength
  }

  /** The writes stay inside the length given exactly when the base is bad, or there is a length and it is not the
      number of digits: the terminator of a number that just fits, or of one printed without a limit, lies behind it. */
  lemma StaysInsideIff(n: nat, baseParam: u32, outLength: u32)
    ensures Extent(n, baseParam, outLength) <= outLength <==>
      !(2 <= baseParam <= 16) || (outLength > 0 && |Printed(n, baseParam)| != outLength)
  {
    hide Printed;
    if 2 <= baseParam <= 16 {
      PrintedNonempty(n, baseParam);
    }
  }

  lemma PrintedNonempty(n: nat, b: Base)
    ensures |Printed(n, b)| > 0
  {
  }

  /** Zero in a buffer of one character: the digit takes it, and the terminator is written behind it. */
  lemma ZeroInOneCharacter()
    ensures Accepted(0, 10, 1) && Extent(0, 10, 1) == 2
  {
    PrintedStep(0, 10);
  }

  method ReverseString(str: array<char>, length: nat)
    requires 0 < length <= str.Length
    modifies str
    ensures str[..length] == Reversed(old(str[..length]))
    ensures str[length..] == old(str[length..])
  {
    var i, j := 0, length - 1;
    while i < j
      invariant i + j == length - 1 && i <= j + 1
      invariant forall k :: 0 <= k < i ==> str[k] == old(str[length - 1 - k]) && str[length - 1 - k] == old(str[k])
      invariant forall k :: i <= k <= j ==> str[k] == old(str[k])
      invariant forall k :: length <= k < str.Length ==> str[k] == old(str[k])
    {
      str[i], str[j] := str[j], str[i];
      i, j := i + 1, j - 1;
    }
  }

  /** The loop's progress: the characters so far, followed by the rest's, are the number's. */
  ghost predicate Progress(n: nat, b: Base, done: string, rest: nat, more: bool) {
    Text(Digits(n, b)) == done + (if more then Text(Digits(rest, b)) else "")
  }

  lemma DigitsStep(n: nat, b: Base, done: string, rest: nat)
    requires Progress(n, b, done, rest, true)
    ensures Progress(n, b, done + [HexDigit(rest % b)], rest / b, rest / b != 0)
  {
    hide HexDigit, Text, Digits;
    TextStep(rest, b);
    var c := HexDigit(rest % b);
    var tail := if rest / b != 0 then Text(Digits(rest / b, b)) else "";
    assert Text(Digits(n, b)) == done + ([c] + tail);
    assert done + ([c] + tail) == done + [c] + tail;
  }

  lemma TextStep(n: nat, b: Base)
    ensures Text(Digits(n, b)) == [HexDigit(n % b)] + (if n / b == 0 then "" else Text(Digits(n / b, b)))
  {
    var ds := Digits(n, b);
    var tail := if n / b == 0 then [] else Digits(n / b, b);
    assert ds[0] == n % b && ds[1..] == tail;
  }

  lemma PrintedLength(n: nat, b: Base)
    ensures |Printed(n, b)| == |Text(Digits(n, b))| && Printed(n, b) == Reversed(Text(Digits(n, b)))
  {
  }

  lemma ProgressStart(n: nat, b: Base)
    ensures Progress(n, b, "", n, true)
  {
  }

  /** While digits remain there is at least one more character to come, and few in all. */
  lemma ProgressLength(n: nat, b: Base, done: string, rest: nat, more: bool)
    requires n < B256 && Progress(n, b, done, rest, more)
    ensures if more then |done| < |Printed(n, b)| else |done| == |Printed(n, b)|
    ensures |Printed(n, b)| <= 256
  {
    PrintedLength(n, b);
    DigitsLength(n, b, 256) by { Pow2At256(); }
  }

  lemma {:induction false} DigitsLength(n: nat, b: Base, k: nat)
    requires k > 0 && n < Pow2(k)
    ensures |Digits(n, b)| <= k
    decreases k
  {
    DivModBase(n, b);
    if n / b > 0 {
      DivHalves(n, b);
      assert k > 1;
      DigitsLength(n / b, b, k - 1);
    }
  }

  lemma DivHalves(n: nat, b: Base)
    ensures 0 <= n / b <= n / 2
  {
    DivModBase(n, b);
    MulMono(n / b, 2, b);
  }

  /** One digit: divide in place and store the remainder's character. */
  method EmitDigit(rDiv: U256, rMod: U256, base: U256, b: Base, out: array<char>, offset: nat)
    requires rDiv.Valid() && rMod.Valid() && base.Valid() && Disjoint(rDiv, rMod) && base.Value() == b
    requires offset < out.Length
    modifies rDiv.upper, rDiv.lower, rMod.upper, rMod.lower, out
    ensures rDiv.Value() == old(rDiv.Value()) / b
    ensures out[..] == old(out[..])[offset := HexDigit(old(rDiv.Value()) % b)]
  {
    DivMod256(rDiv, base, rDiv, rMod);
    LowLimb(rMod);
    out[offset] := HexDigit(rMod.lower.lower);
  }

  lemma LowLimb(x: U256)
    requires x.Value() < B64
    ensures x.lower.lower == x.Value()
  {
  }

  /** The printing loop: least significant digit first, giving up when the buffer is used up. */
  method PrintDigits(number: U256, b: Base, out: array<char>, outLength: u32) returns (ok: bool, offset: u32)
    requires number.Valid()
    requires Extent(number.Value(), b, outLength) <= out.Length
    modifies out
    ensures ok <==> Accepted(number.Value(), b, outLength)
    ensures ok ==> offset < out.Length && out[..offset] == Text(Digits(number.Value(), b))
    ensures !ok ==> offset == outLength <= out.Length && out[..offset] <= Text(Digits(number.Value(), b))
    ensures forall k :: offset <= k < out.Length ==> out[k] == old(out[k])
  {
    hide Printed, U256.Value, Progress, Text, Digits;
    ghost var n, was := number.Value(), out[..];
    var rDiv := new U256(0, 0, 0, 0);
    var rMod := new U256(0, 0, 0, 0);
    var base := new U256(0, 0, 0, b);
    Copy256(rDiv, number);
    offset := 0;
    var more := true;
    ProgressStart(n, b);
    SubModIs(outLength, 1, B32);
    assert out[..0] == "";
    while more
      invariant Disjoint(rDiv, rMod) && base.Value() == b && number.Value() == n
      invariant offset <= out.Length && Progress(n, b, out[..offset], rDiv.Value(), more)
      invariant offset > 0 ==> offset - 1 <= SubMod(outLength, 1, B32)
      invariant forall k :: offset <= k < out.Length ==> out[k] == was[k]
      decreases more, if more then rDiv.Value() else 0
    {
      ProgressLength(n, b, out[..offset], rDiv.Value(), more);
      if offset > SubMod(outLength, 1, B32) {
        ProgressPrefix(n, b, out[..offset], rDiv.Value());
        return false, offset;
      }
      ghost var done, rest := out[..offset], rDiv.Value();
      EmitDigit(rDiv, rMod, base, b, out, offset);
      DigitsStep(n, b, done, rest);
      DivModBase(rest, b);
      assert out[..offset + 1] == done + [HexDigit(rest % b)];
      offset := offset + 1;
      more := !Zero256(rDiv);
    }
    ProgressLength(n, b, out[..offset], rDiv.Value(), more);
    ProgressEnd(n, b, out[..offset], rDiv.Value());
    ok := true;
  }

  lemma ProgressPrefix(n: nat, b: Base, done: string, rest: nat)
    requires Progress(n, b, done, rest, true)
    ensures done <= Text(Digits(n, b))
  {
    hide Text, Digits;
  }

  lemma ProgressEnd(n: nat, b: Base, done: string, rest: nat)
    requires Progress(n, b, done, rest, false)
    ensures done == Text(Digits(n, b))
  {
  }

  method ToString256(number: U256, baseParam: u32, out: array<char>, outLength: u32) returns (ok: bool)
    requires number.Valid()
    requires Extent(number.Value(), baseParam, outLength) <= out.Length
    modifies out
    ensures ok <==> 2 <= baseParam <= 16 && Accepted(number.Value(), baseParam, outLength)
    ensures ok ==> var s := Printed(number.Value(), baseParam);
      |s| < out.Length && out[..|s|] == s && out[|s|] == '\0'
    ensures !ok && 2 <= baseParam <= 16 ==>
      outLength <= out.Length && out[..outLength] <= Text(Digits(number.Value(), baseParam))
    ensures forall k :: Extent(number.Value(), baseParam, outLength) <= k < out.Length ==> out[k] == old(out[k])
  {
    if baseParam < 2 || baseParam > 16 {
      return false;
    }
    PrintedLength(number.Value(), baseParam);
    var offset;
    ok, offset := PrintDigits(number, baseParam, out, outLength);
    if ok {
      out[offset] := '\0';
      ReverseString(out, offset);
    }
  }
}
