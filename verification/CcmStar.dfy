/** ccm-star.c: CCM* authenticated encryption over a block cipher e, against sections 2.2 to 2.5 of RFC 3610 with L = 2. */
module CcmStar {
  import opened Bits

  type Bytes = seq<u8>
  type Block = b: Bytes | |b| == 16 witness [0, 0, 0, 0, 0, 0, 0, 0, 0, 0, 0, 0, 0, 0, 0, 0]
  type Nonce = n: Bytes | |n| == 13 witness [0, 0, 0, 0, 0, 0, 0, 0, 0, 0, 0, 0, 0]
  type Cipher = Block -> Block

  // ---- Adding bytes --------------------------------------------------------------------

  function Xor(a: u8, b: u8): u8 {
    XorByte(a, b);
    Bitwise(XorFn, a, b)
  }

  lemma XorByte(a: u8, b: u8)
    ensures Bitwise(XorFn, a, b) < 256
  {
    hide Bitwise;
    Pow2At8();
    BitwiseSplit(XorFn, 8, a, 0, b, 0);
  }

  lemma {:induction false} XorTwice(a: nat, b: nat)
    ensures Bitwise(XorFn, Bitwise(XorFn, a, b), b) == a
    decreases a + b
  {
    if a != 0 || b != 0 {
      XorTwice(a / 2, b / 2);
      var x := Bitwise(XorFn, a, b);
      assert x / 2 == Bitwise(XorFn, a / 2, b / 2);
    }
  }

  lemma XorZero(a: u8)
    ensures Xor(a, 0) == a
  {
    BitwiseZero(XorFn, a);
  }

  /** x with the bytes of d added to its first ones. */
  function Mixed(x: Block, d: Bytes): Block
    requires |d| <= 16
  {
    seq(16, i requires 0 <= i < 16 => if i < |d| then Xor(x[i], d[i]) else x[i])
  }

  // ---- RFC 3610 ------------------------------------------------------------------------

  /** CCM_STAR_AUTH_FLAGS, in unsigned arithmetic and then cut to a byte. */
  function AuthFlags(adata: bool, micLen: nat): u8 {
    var m := ShlMod(Shr((micLen - 2) % B32, 1), 3, B32);
    Bitwise(OrFn, Bitwise(OrFn, if adata then 64 else 0, m), 1) % 256
  }

  /** For MICs of at least two bytes, the flags of section 2.2: 64 * Adata + 8 * M' + L'. */
  lemma FlagsAgree(adata: bool, micLen: nat)
    requires 2 <= micLen <= 16
    ensures AuthFlags(adata, micLen) == 64 * (if adata then 1 else 0) + 8 * ((micLen - 2) / 2) + 1
  {
    hide Bitwise, ShlMod, Shr;
    var b, k := if adata then 1 else 0, (micLen - 2) / 2;
    ShiftedMic(micLen);
    OrFlags(b, k);
  }

  lemma ShiftedMic(micLen: nat)
    requires 2 <= micLen <= 16
    ensures ShlMod(Shr((micLen - 2) % B32, 1), 3, B32) == 8 * ((micLen - 2) / 2)
  {
    assert Pow2(1) == 2 && Pow2(3) == 8;
  }

  lemma OrFlags(b: nat, k: nat)
    requires b < 2 && k < 8
    ensures Bitwise(OrFn, Bitwise(OrFn, 64 * b, 8 * k), 1) == 64 * b + 8 * k + 1
  {
    hide Bitwise;
    assert Pow2(3) == 8 && Pow2(6) == 64;
    BitwiseSplit(OrFn, 6, 0, b, 8 * k, 0);
    BitwiseZero(OrFn, b);
    BitwiseZero(OrFn, 8 * k);
    BitwiseSplit(OrFn, 3, 0, 8 * b + k, 1, 0);
    BitwiseZero(OrFn, 8 * b + k);
    BitwiseZero(OrFn, 1);
  }

  /** B_0 (section 2.2) and A_i (section 2.3) are laid out alike: the flags, the nonce, and 16 bits that hold n. */
  ghost predicate LaidOut(b: Block, flags: u8, nonce: Nonce, n: nat) {
    && b[0] == flags
    && (forall i :: 1 <= i < 14 ==> b[i] == nonce[i - 1])
    && (b[14] as nat) * 256 + b[15] as nat == n
  }

  function Iv(flags: u8, nonce: Nonce, counter: u8): (b: Block)
    ensures LaidOut(b, flags, nonce, counter)
  {
    [flags] + nonce + [0, counter]
  }

  lemma LaidOutUnique(b: Block, flags: u8, nonce: Nonce, n: u8)
    requires LaidOut(b, flags, nonce, n)
    ensures b == Iv(flags, nonce, n)
  {
    hide Iv;
    var c := Iv(flags, nonce, n);
    assert forall i :: 0 <= i < 16 ==> b[i] == c[i];
  }

  function ZeroBytes(n: nat): (z: Bytes)
    ensures |z| == n && forall i :: 0 <= i < n ==> z[i] == 0
  {
    seq(n, i => 0)
  }

  /** Zeros up to whole blocks. */
  function Pad(d: Bytes): (p: Bytes)
    ensures |p| % 16 == 0
  {
    if |d| % 16 == 0 then d else d + ZeroBytes(16 - |d| % 16)
  }

  /** X_1 = x; X_{i+1} = e(X_i + B_i), over whole blocks. */
  function CbcMac(e: Cipher, x: Block, blocks: Bytes): Block
    requires |blocks| % 16 == 0
    decreases |blocks|
  {
    if blocks == [] then x else CbcMac(e, e(Mixed(x, blocks[..16])), blocks[16..])
  }

  /** Section 2.2: the associated data behind its length, padded, in front of the padded message. */
  function AuthBlocks(m: Bytes, a: Bytes): Bytes
    requires |a| < 256
  {
    (if a == [] then [] else Pad([0, |a|] + a)) + Pad(m)
  }

  /** Sections 2.2 and 2.3: T encrypted with S_0, truncated to M bytes. */
  function Tag(e: Cipher, nonce: Nonce, m: Bytes, a: Bytes, micLen: nat): Bytes
    requires |m| < 256 && |a| < 256 && micLen <= 16
  {
    TagFrom(e, Iv(AuthFlags(a != [], micLen), nonce, |m|), Iv(1, nonce, 0), m, a, micLen)
  }

  /** The same from the blocks B_0 and A_0. */
  function TagFrom(e: Cipher, b0: Block, a0: Block, m: Bytes, a: Bytes, micLen: nat): Bytes
    requires |a| < 256 && micLen <= 16
  {
    Mixed(CbcMac(e, e(b0), AuthBlocks(m, a)), e(a0))[..micLen]
  }

  /** Section 2.3: byte i of S_1 S_2 .. */
  function KeyByte(e: Cipher, nonce: Nonce, i: nat): u8
    requires i < 255 * 16
  {
    e(Iv(1, nonce, 1 + i / 16))[i % 16]
  }

  /** S_1 S_2 .. from any blocks laid out as A_1 A_2 .. */
  lemma KeyByteIs(e: Cipher, nonce: Nonce, i: nat, a: Block)
    requires i < 255 * 16 && LaidOut(a, 1, nonce, 1 + i / 16)
    ensures KeyByte(e, nonce, i) == e(a)[i % 16]
  {
    hide Iv;
    LaidOutUnique(a, 1, nonce, 1 + i / 16);
  }

  /** The tag, from any blocks laid out as B_0 and A_0. */
  lemma TagIs(e: Cipher, nonce: Nonce, m: Bytes, a: Bytes, micLen: nat, b0: Block, a0: Block)
    requires |m| < 256 && |a| < 256 && micLen <= 16
    requires LaidOut(b0, AuthFlags(a != [], micLen), nonce, |m|) && LaidOut(a0, 1, nonce, 0)
    ensures Tag(e, nonce, m, a, micLen) == TagFrom(e, b0, a0, m, a, micLen)
  {
    hide Iv, AuthFlags, TagFrom;
    LaidOutUnique(b0, AuthFlags(a != [], micLen), nonce, |m|);
    LaidOutUnique(a0, 1, nonce, 0);
  }

  lemma TagOfBlocks(e: Cipher, nonce: Nonce, m: Bytes, a: Bytes, micLen: nat)
    requires |m| < 256 && |a| < 256 && micLen <= 16
    ensures forall b0: Block, a0: Block ::
      LaidOut(b0, AuthFlags(a != [], micLen), nonce, |m|) && LaidOut(a0, 1, nonce, 0) ==>
      Tag(e, nonce, m, a, micLen) == TagFrom(e, b0, a0, m, a, micLen)
  {
    hide Tag, TagFrom, LaidOut, AuthFlags;
    forall b0: Block, a0: Block | LaidOut(b0, AuthFlags(a != [], micLen), nonce, |m|) && LaidOut(a0, 1, nonce, 0)
      ensures Tag(e, nonce, m, a, micLen) == TagFrom(e, b0, a0, m, a, micLen)
    {
      TagIs(e, nonce, m, a, micLen, b0, a0);
    }
  }

  function Crypt(e: Cipher, nonce: Nonce, m: Bytes): Bytes
    requires |m| < 256
  {
    seq(|m|, i requires 0 <= i < |m| => Xor(m[i], KeyByte(e, nonce, i)))
  }

  /** Decryption is encryption again. */
  lemma CryptTwice(e: Cipher, nonce: Nonce, m: Bytes)
    requires |m| < 256
    ensures Crypt(e, nonce, Crypt(e, nonce, m)) == m
  {
    hide KeyByte, Bitwise;
    forall i | 0 <= i < |m| ensures Xor(Xor(m[i], KeyByte(e, nonce, i)), KeyByte(e, nonce, i)) == m[i] {
      XorTwice(m[i], KeyByte(e, nonce, i));
    }
  }

  // ---- Answers for the cipher that changes nothing ---------------------------------------

  const IDENTITY: Cipher := b => b

  const NAUGHTS: Block := [0, 0, 0, 0, 0, 0, 0, 0, 0, 0, 0, 0, 0, 0, 0, 0]

  lemma XorNone(a: u8)
    ensures Xor(0, a) == a
  {
    BitwiseZero(XorFn, a);
  }

  lemma {:induction false} XorSwapped(a: nat, b: nat)
    ensures Bitwise(XorFn, a, b) == Bitwise(XorFn, b, a)
    decreases a + b
  {
    if a != 0 || b != 0 {
      XorSwapped(a / 2, b / 2);
    }
  }

  lemma XorAround(a: u8, b: u8)
    ensures Xor(Xor(a, b), a) == b
  {
    hide Bitwise;
    XorSwapped(a, b);
    XorTwice(b, a);
  }

  /** The stream is A_1 A_2 ..: 18 zero bytes become A_1 and the first two bytes of A_2. */
  lemma StreamAnswer(nonce: Nonce)
    ensures Crypt(IDENTITY, nonce, NAUGHTS + [0, 0]) == [1] + nonce + [0, 1] + [1, nonce[0]]
  {
    hide Xor;
    var m := NAUGHTS + [0, 0];
    var s := [1] + nonce + [0, 1] + [1, nonce[0]];
    forall i | 0 <= i < 18 ensures Xor(m[i], KeyByte(IDENTITY, nonce, i)) == s[i] {
      XorNone(KeyByte(IDENTITY, nonce, i));
    }
  }

  /** The tag of five zero bytes with the associated byte 7 is B_0 + (0 1 7 0 ..) + A_0: the flags bytes leave 121 + 1,
      the nonces cancel out, and the length of the message is left. */
  lemma TagAnswer(nonce: Nonce)
    ensures Tag(IDENTITY, nonce, [0, 0, 0, 0, 0], [7], 16) == [120, 1, 7, 0, 0, 0, 0, 0, 0, 0, 0, 0, 0, 0, 0, 5]
  {
    hide Xor, Mixed, CbcMac, AuthBlocks, AuthFlags;
    var b0, a0 := Iv(121, nonce, 5), Iv(1, nonce, 0);
    var first: Block := [0, 1, 7, 0, 0, 0, 0, 0, 0, 0, 0, 0, 0, 0, 0, 0];
    FlagsAgree(true, 16);
    TwoBlocks();
    Twice(b0, first, NAUGHTS);
    MixedNaughts(Mixed(b0, first));
    var t: Block := [120, 1, 7, 0, 0, 0, 0, 0, 0, 0, 0, 0, 0, 0, 0, 5];
    MixedWithTwo(b0, first, a0, t) by {
      forall i | 0 <= i < 16 ensures Xor(Xor(b0[i], first[i]), a0[i]) == t[i] {
        LeftOfByte(nonce, first, t, i);
      }
    }
    assert t[..16] == t;
  }

  lemma LeftOfByte(nonce: Nonce, first: Block, t: Block, i: nat)
    requires i < 16 && forall j :: 1 <= j < 15 ==> first[j] == t[j]
    requires first[0] == 0 && first[14] == 0 && first[15] == 0 && t[0] == 120 && t[15] == 5
    ensures Xor(Xor(Iv(121, nonce, 5)[i], first[i]), Iv(1, nonce, 0)[i]) == t[i]
  {
    hide Xor;
    var b0 := Iv(121, nonce, 5);
    XorZero(b0[i]);
    if i == 0 {
      FlagsLeft();
    } else if i < 14 {
      XorAround(nonce[i - 1], first[i]);
    }
  }

  lemma MixedNaughts(x: Block)
    ensures Mixed(x, NAUGHTS) == x
  {
    hide Xor;
    forall i | 0 <= i < 16 ensures Xor(x[i], 0) == x[i] {
      XorZero(x[i]);
    }
  }

  lemma MixedWithTwo(x: Block, b: Block, c: Block, t: Block)
    requires forall i :: 0 <= i < 16 ==> Xor(Xor(x[i], b[i]), c[i]) == t[i]
    ensures Mixed(Mixed(x, b), c) == t
  {
    hide Xor;
  }

  lemma FlagsLeft()
    ensures Xor(121, 1) == 120
  {
    hide Bitwise;
    BitwiseUnfold(XorFn, 121, 1);
    BitwiseZero(XorFn, 60);
  }

  lemma TwoBlocks()
    ensures AuthBlocks([0, 0, 0, 0, 0], [7]) == [0, 1, 7, 0, 0, 0, 0, 0, 0, 0, 0, 0, 0, 0, 0, 0] + NAUGHTS
  {
  }

  lemma Twice(x: Block, b: Block, c: Block)
    ensures CbcMac(IDENTITY, x, b + c) == Mixed(Mixed(x, b), c)
  {
    hide Xor;
    var none: Bytes := [];
    assert (b + c)[..16] == b && (b + c)[16..] == c && c[..16] == c && c[16..] == none;
    assert CbcMac(IDENTITY, Mixed(x, b), c) == CbcMac(IDENTITY, Mixed(Mixed(x, b), c), none);
  }

  // ---- Chaining without padding --------------------------------------------------------

  /** What the loops of mic compute: a last short block is added as it is. */
  function Chain(e: Cipher, x: Block, d: Bytes): Block
    decreases |d|
  {
    if d == [] then x
    else if |d| <= 16 then e(Mixed(x, d))
    else Chain(e, e(Mixed(x, d[..16])), d[16..])
  }

  lemma MixedPadded(x: Block, d: Bytes)
    requires 0 < |d| <= 16
    ensures |Pad(d)| == 16 && Mixed(x, Pad(d)) == Mixed(x, d)
  {
    hide Xor;
    forall i | 0 <= i < 16 ensures Xor(x[i], 0) == x[i] {
      XorZero(x[i]);
    }
  }

  lemma PadRest(d: Bytes)
    requires |d| > 16
    ensures |Pad(d)| > 16 && Pad(d)[..16] == d[..16] && Pad(d)[16..] == Pad(d[16..])
  {
    assert (|d| - 16) % 16 == |d| % 16;
  }

  /** Leaving out the padding zeros does not change the chain. */
  lemma {:induction false} ChainIsCbcMac(e: Cipher, x: Block, d: Bytes)
    ensures Chain(e, x, d) == CbcMac(e, x, Pad(d))
    decreases |d|
  {
    hide Mixed, Pad;
    PadNone();
    if d == [] {
    } else if |d| <= 16 {
      MixedPadded(x, d);
      assert Pad(d)[..16] == Pad(d);
    } else {
      PadRest(d);
      ChainIsCbcMac(e, e(Mixed(x, d[..16])), d[16..]);
    }
  }

  lemma PadNone()
    ensures Pad([]) == []
  {
  }

  lemma {:induction false} CbcMacConcat(e: Cipher, x: Block, p: Bytes, q: Bytes)
    requires |p| % 16 == 0 && |q| % 16 == 0
    ensures |p + q| % 16 == 0 && CbcMac(e, x, p + q) == CbcMac(e, CbcMac(e, x, p), q)
    decreases |p|
  {
    hide Mixed;
    WholeBlocks(|p|, |q|);
    if p == [] {
      assert p + q == q;
    } else {
      assert (p + q)[..16] == p[..16] && (p + q)[16..] == p[16..] + q;
      CbcMacConcat(e, e(Mixed(x, p[..16])), p[16..], q);
    }
  }

  lemma WholeBlocks(n: nat, k: nat)
    requires n % 16 == 0 && k % 16 == 0
    ensures (n + k) % 16 == 0 && (n > 0 ==> n >= 16 && (n - 16) % 16 == 0)
  {
  }

  // ---- The implementation --------------------------------------------------------------

  /** Adds S_counter, the encrypted block A_counter, to at most 16 bytes from pos on. */
  method CtrStep(e: Cipher, nonce: Nonce, pos: nat, m: array<u8>, counter: u8) returns (ghost block: Block)
    requires pos < 256 && m.Length < 256
    modifies m
    ensures LaidOut(block, 1, nonce, counter)
    ensures forall j :: 0 <= j < m.Length ==>
      m[j] == if pos <= j < pos + 16 then Xor(old(m[j]), e(block)[j - pos]) else old(m[j])
  {
    hide Xor, Iv;
    var iv := Iv(1, nonce, counter);
    block := iv;
    var a := e(iv);
    var i := 0;
    while pos + i < m.Length && i < 16
      invariant 0 <= i <= 16
      invariant forall j :: 0 <= j < m.Length ==>
        m[j] == if pos <= j < pos + i then Xor(old(m[j]), a[j - pos]) else old(m[j])
    {
      m[pos + i] := Xor(m[pos + i], a[i]);
      i := i + 1;
    }
  }

  method Ctr(e: Cipher, nonce: Nonce, m: array<u8>)
    requires m.Length <= 240
    modifies m
    ensures m[..] == Crypt(e, nonce, old(m[..]))
    ensures forall i, a: Block :: 0 <= i < m.Length && LaidOut(a, 1, nonce, 1 + i / 16) ==>
      m[i] == Xor(old(m[i]), e(a)[i % 16])
  {
    hide Xor, Iv, KeyByte, LaidOut;
    var pos, counter := 0, 1;
    while pos < m.Length
      invariant pos == 16 * (counter - 1) && 1 <= counter <= 16
      invariant forall j :: 0 <= j < m.Length ==>
        m[j] == if j < pos then Xor(old(m[j]), KeyByte(e, nonce, j)) else old(m[j])
      decreases 256 - pos
    {
      ghost var block := CtrStep(e, nonce, pos, m, counter);
      forall j | pos <= j < m.Length && j < pos + 16 ensures KeyByte(e, nonce, j) == e(block)[j - pos] {
        BlockOf(j, pos, counter);
        KeyByteIs(e, nonce, j, block);
      }
      counter := (counter + 1) % 256;
      pos := (pos + 16) % 256;
    }
    forall i, a: Block | 0 <= i < m.Length && LaidOut(a, 1, nonce, 1 + i / 16)
      ensures m[i] == Xor(old(m[i]), e(a)[i % 16])
    {
      KeyByteIs(e, nonce, i, a);
    }
  }

  lemma BlockOf(j: nat, pos: nat, counter: nat)
    requires pos == 16 * (counter - 1) && pos <= j < pos + 16
    ensures j / 16 == counter - 1 && j % 16 == j - pos
  {
  }

  /** The inner loops of mic: adds at most a block of d, from pos on, and encrypts. */
  method Absorb(e: Cipher, x: array<u8>, d: Bytes, pos: nat)
    requires x.Length == 16 && pos < |d|
    modifies x
    ensures x[..] == e(Mixed(old(x[..]), d[pos..if pos + 16 < |d| then pos + 16 else |d|]))
  {
    hide Xor;
    ghost var s: Block := x[..];
    ghost var part := d[pos..if pos + 16 < |d| then pos + 16 else |d|];
    var i := 0;
    while pos + i < |d| && i < 16
      invariant 0 <= i <= |part| && x[..] == Mixed(s, part[..i])
    {
      ghost var y := x[..];
      MixedNext(s, part, i);
      x[i] := Xor(x[i], d[pos + i]);
      assert x[..] == y[i := x[i]];
      i := i + 1;
    }
    assert part[..i] == part;
    Encrypt(e, x);
  }

  lemma MixedNext(s: Block, d: Bytes, i: nat)
    requires i < |d| <= 16
    ensures Mixed(s, d[..i])[i] == s[i]
    ensures Mixed(s, d[..i + 1]) == Mixed(s, d[..i])[i := Xor(s[i], d[i])]
  {
    hide Xor;
  }

  /** AES_128.encrypt, in place. */
  method Encrypt(e: Cipher, x: array<u8>)
    requires x.Length == 16
    modifies x
    ensures x[..] == e(old(x[..]))
  {
    var y := e(x[..]);
    for i := 0 to 16
      invariant forall j :: 0 <= j < i ==> x[j] == y[j]
    {
      x[i] := y[i];
    }
  }

  /** What is still to be chained from pos on. */
  function From(d: Bytes, pos: nat): Bytes {
    if pos < |d| then d[pos..] else []
  }

  /** The loop over d from pos on; its index is a byte. */
  method ChainFrom(e: Cipher, x: array<u8>, d: Bytes, start: nat)
    requires x.Length == 16 && ((start == 0 && |d| <= 240) || (start == 14 && |d| <= 254))
    modifies x
    ensures x[..] == Chain(e, old(x[..]), From(d, start))
  {
    hide Mixed, Chain, From;
    var pos := start;
    while pos < |d|
      invariant 0 <= pos < 256 && pos % 16 == start
      invariant Chain(e, x[..], From(d, pos)) == Chain(e, old(x[..]), From(d, start))
      decreases 256 - pos
    {
      ChainStep(e, x[..], d, pos);
      Absorb(e, x, d, pos);
      NextPos(pos, start, |d|);
      pos := (pos + 16) % 256;
    }
    NothingLeft(e, x[..], d, pos);
  }

  lemma NextPos(pos: nat, start: nat, n: nat)
    requires pos < n && pos % 16 == start && ((start == 0 && n <= 240) || (start == 14 && n <= 254))
    ensures (pos + 16) % 256 == pos + 16 && (pos + 16) % 16 == start
  {
  }

  lemma NothingLeft(e: Cipher, x: Block, d: Bytes, pos: nat)
    requires pos >= |d|
    ensures Chain(e, x, From(d, pos)) == x
  {
  }

  lemma ChainStep(e: Cipher, x: Block, d: Bytes, pos: nat)
    requires pos < |d|
    ensures Chain(e, x, From(d, pos)) ==
      Chain(e, e(Mixed(x, d[pos..if pos + 16 < |d| then pos + 16 else |d|])), From(d, pos + 16))
  {
    hide Mixed;
    var f := From(d, pos);
    if pos + 16 < |d| {
      assert f[..16] == d[pos..pos + 16] && f[16..] == d[pos + 16..];
    } else {
      assert f == d[pos..|d|];
    }
  }

  /** The block that holds the length of a and its first fourteen bytes. */
  function FirstBlock(a: Bytes): Bytes
    requires |a| < 256
  {
    [0, |a|] + (if |a| <= 14 then a else a[..14])
  }

  method AddLength(x: array<u8>, a: Bytes)
    requires x.Length == 16 && |a| < 256
    modifies x
    ensures x[..] == Mixed(old(x[..]), FirstBlock(a))
  {
    hide Xor;
    ghost var s: Block := x[..];
    XorZero(s[0]);
    x[1] := Xor(x[1], |a|);
    var i := 2;
    while i - 2 < |a| && i < 16
      invariant 2 <= i <= 16 && i <= |a| + 2
      invariant x[0] == s[0] && x[1] == Xor(s[1], |a|)
      invariant forall j :: 2 <= j < 16 ==> x[j] == if j < i then Xor(s[j], a[j - 2]) else s[j]
    {
      x[i] := Xor(x[i], a[i - 2]);
      i := i + 1;
    }
  }

  /** The chain over the associated data and the message is the CBC-MAC of the formatted input. */
  lemma Chained(e: Cipher, x: Block, x': Block, m: Bytes, a: Bytes)
    requires |a| < 256
    requires x' == if a == [] then x else Chain(e, e(Mixed(x, FirstBlock(a))), From(a, 14))
    ensures Chain(e, x', m) == CbcMac(e, x, AuthBlocks(m, a))
  {
    hide Mixed, CbcMac, Pad;
    ChainIsCbcMac(e, x', m);
    if a != [] {
      var d := [0, |a|] + a;
      if |a| > 14 {
        assert d[..16] == FirstBlock(a) && d[16..] == From(a, 14);
      }
      ChainIsCbcMac(e, x, d);
      CbcMacConcat(e, x, Pad(d), Pad(m));
    } else {
      assert AuthBlocks(m, a) == Pad(m);
    }
  }

  lemma MixedIs(x: Block, s: Block, y: Bytes)
    requires |y| == 16 && forall j :: 0 <= j < 16 ==> y[j] == Xor(x[j], s[j])
    ensures y == Mixed(x, s)
  {
    hide Xor;
  }

  method Mic(e: Cipher, nonce: Nonce, m: Bytes, a: Bytes, micLen: nat) returns (result: Bytes)
    requires |m| <= 240 && |a| <= 254 && micLen <= 16
    ensures result == Tag(e, nonce, m, a, micLen)
    ensures forall b0: Block, a0: Block ::
      LaidOut(b0, AuthFlags(a != [], micLen), nonce, |m|) && LaidOut(a0, 1, nonce, 0) ==>
      result == TagFrom(e, b0, a0, m, a, micLen)
  {
    hide Xor, Mixed, Chain, CbcMac, Pad, AuthFlags, Iv, LaidOut;
    var iv := Iv(AuthFlags(a != [], micLen), nonce, |m|);
    var x := new u8[16](i requires 0 <= i < 16 => iv[i]);
    assert x[..] == iv;
    Encrypt(e, x);
    ghost var x1: Block := x[..];
    if a != [] {
      AddLength(x, a);
      Encrypt(e, x);
      ChainFrom(e, x, a, 14);
    }
    ghost var x2: Block := x[..];
    if |m| > 0 {
      ChainFrom(e, x, m, 0);
    } else {
      NothingLeft(e, x2, m, 0);
    }
    assert From(m, 0) == m;
    Chained(e, x1, x2, m, a);
    ghost var t: Block := x[..];
    assert t == Chain(e, x2, m);
    ghost var a0 := CtrStep(e, nonce, 0, x, 0);
    LaidOutUnique(a0, 1, nonce, 0);
    ghost var s := e(a0);
    assert forall j :: 0 <= j < 16 ==> x[j] == Xor(t[j], s[j - 0]);
    MixedIs(t, s, x[..]);
    result := x[..micLen];
    TagOfBlocks(e, nonce, m, a, micLen);
  }

  /** aead: in both directions the message is XORed with the key stream, and the MIC is that of the plain text. */
  method Aead(e: Cipher, nonce: Nonce, m: array<u8>, a: Bytes, micLen: nat, forward: bool) returns (result: Bytes)
    requires m.Length <= 240 && |a| <= 254 && micLen <= 16
    modifies m
    ensures m[..] == Crypt(e, nonce, old(m[..]))
    ensures result == Tag(e, nonce, if forward then old(m[..]) else m[..], a, micLen)
  {
    hide Crypt, Tag;
    if !forward {
      Ctr(e, nonce, m);
    }
    result := Mic(e, nonce, m[..], a, micLen);
    if forward {
      Ctr(e, nonce, m);
    }
  }

  /** Encrypting and then decrypting restores every message and computes the same MIC. */
  method ThereAndBack(e: Cipher, nonce: Nonce, m: array<u8>, a: Bytes, micLen: nat)
    returns (sent: Bytes, checked: Bytes)
    requires m.Length <= 240 && |a| <= 254 && micLen <= 16
    modifies m
    ensures m[..] == old(m[..]) && checked == sent
  {
    hide Crypt, Tag;
    CryptTwice(e, nonce, m[..]);
    sent := Aead(e, nonce, m, a, micLen, true);
    checked := Aead(e, nonce, m, a, micLen, false);
  }

  // ---- Why the lengths are bounded -----------------------------------------------------

  /** The byte index pos after n rounds of a loop that starts at start. */
  function PosAfter(start: nat, n: nat): nat {
    (start + 16 * n) % 256
  }

  /** The loops over m end, as their index is a byte, exactly for messages of at most 240 bytes. */
  lemma MessageLoopEndsIff(mLen: u8)
    ensures (exists n: nat :: PosAfter(0, n) >= mLen) <==> mLen <= 240
  {
    assert PosAfter(0, 15) == 240;
    forall n: nat ensures PosAfter(0, n) <= 240 {
      DivUnique(16 * n, 256, n / 16, 16 * (n % 16));
    }
  }

  /** The loop over a ends exactly for associated data of at most 254 bytes. */
  lemma DataLoopEndsIff(aLen: u8)
    ensures (exists n: nat :: PosAfter(14, n) >= aLen) <==> aLen <= 254
  {
    assert PosAfter(14, 15) == 254;
    forall n: nat ensures PosAfter(14, n) <= 254 {
      DivUnique(14 + 16 * n, 256, n / 16, 14 + 16 * (n % 16));
    }
  }
}
