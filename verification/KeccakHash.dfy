/** keccak256.c: Keccak-256 over a message that arrives in pieces, whole blocks buffered. */
module Keccak256Hash {
  import opened Keccak
  import opened LaneBytes
  import opened Sponge
  import Keccak256Permutation

  const BLOCK_SIZE: nat := 136
  const DIGEST_LENGTH: nat := 100 - BLOCK_SIZE / 2

  /** memcpy(dst + at, src, |src|). */
  method CopyInto(dst: array<Byte>, at: nat, src: Bytes)
    requires at + |src| <= dst.Length
    modifies dst
    ensures dst[..] == old(dst[..at]) + src + old(dst[at + |src|..])
  {
    for i := 0 to |src|
      invariant dst[..] == old(dst[..at]) + src[..i] + old(dst[at + i..])
    {
      dst[at + i] := src[i];
    }
  }

  ghost predicate Cleared(s: seq<Lane>) {
    forall k :: 0 <= k < |s| ==> s[k] == 0
  }

  method ClearLanes(a: array<Lane>)
    modifies a
    ensures Cleared(a[..])
  {
    for i := 0 to a.Length
      invariant forall k :: 0 <= k < i ==> a[k] == 0
    {
      a[i] := 0;
    }
  }

  lemma TakeMore(m: Bytes, p: Bytes, k: nat, n: nat)
    requires k + n <= |p|
    ensures m + p[..k] + p[k..k + n] == m + p[..k + n]
  {
  }

  lemma SplitAt(m: Bytes, p: Bytes, k: nat)
    requires k <= |p|
    ensures m + p[..k] + p[k..] == m + p
  {
  }

  class Context {
    const hash: array<Lane>
    const message: array<Byte>
    var rest: nat

    ghost predicate Valid()
      reads this
    {
      hash.Length == 25 && message.Length == 192 && rest < BLOCK_SIZE
    }

    /** The context has been given exactly m: full blocks are in hash, the tail waits in message. */
    ghost predicate Holds(m: Bytes)
      reads this, hash, message
    {
      && Valid()
      && rest == Rest(|m|, BLOCK_SIZE)
      && message[..rest] == Tail(m, BLOCK_SIZE)
      && BytesOf(hash[..]) == Absorb(ZERO, m, BLOCK_SIZE)
    }

    constructor Init()
      ensures Holds([]) && fresh(hash) && fresh(message)
    {
      hide BytesOf, Absorb, Tail, Rest, Cleared, Zeros;
      hash := new Lane[25];
      message := new Byte[192];
      rest := 0;
      new;
      ClearLanes(hash);
      CopyInto(message, 0, Zeros(192));
      NothingAbsorbed(BLOCK_SIZE);
      ZeroState(hash[..]);
    }

    method ProcessBlock(block: Bytes)
      requires Valid() && |block| == BLOCK_SIZE
      modifies hash
      ensures BytesOf(hash[..]) == F(XorInto(BytesOf(old(hash[..])), block))
    {
      hide Xor, LaneAt, XorInto, BytesOf, F, Permutation;
      ghost var s: State := hash[..];
      for i := 0 to 17
        invariant LanesAdded(s, hash[..], block, i)
      {
        hash[i] := Xor(hash[i], LaneAt(block, i));
      }
      LanesAddedIsXorInto(s, hash[..], block, 17);
      PermutedBytes(hash[..]);
      Keccak256Permutation.Sha3Permutation(hash);
    }

    /** msg lies at the given address: its blocks are read in place when it is a multiple of 8. */
    method KeccakUpdate(msg: Bytes, address: nat, ghost m: Bytes)
      requires Holds(m) && |msg| < 0x1_0000
      modifies this, hash, message
      ensures Holds(m + msg)
    {
      hide Rest, Tail, Absorb, BytesOf, XorInto, F;
      var idx, at, size := rest, 0, |msg|;
      rest := (rest + size) % BLOCK_SIZE;
      assert rest == Rest(|m + msg|, BLOCK_SIZE) by {
        RestMore(|m|, |msg|, BLOCK_SIZE);
        RestIs(idx + size, BLOCK_SIZE);
      }
      if idx != 0 {
        var left := BLOCK_SIZE - idx;
        CopyInto(message, idx, if size < left then msg else msg[..left]);
        if size < left {
          Fed(m, msg, BLOCK_SIZE);
          return;
        }
        Filled(m, msg[..left], BLOCK_SIZE);
        assert message[..BLOCK_SIZE] == Tail(m, BLOCK_SIZE) + msg[..left];
        ProcessBlock(message[..BLOCK_SIZE]);
        at, size := left, size - left;
      }
      assert idx == 0 ==> m + msg[..at] == m;
      while size >= BLOCK_SIZE
        invariant 0 <= at && 0 <= size && at + size == |msg|
        invariant rest == Rest(|m + msg|, BLOCK_SIZE)
        invariant Rest(|m + msg[..at]|, BLOCK_SIZE) == 0
        invariant BytesOf(hash[..]) == Absorb(ZERO, m + msg[..at], BLOCK_SIZE)
      {
        var block := msg[at..at + BLOCK_SIZE];
        ghost var c := m + msg[..at];
        NoTail(c, BLOCK_SIZE);
        assert Tail(c, BLOCK_SIZE) + block == block;
        if (address + at) % 8 == 0 {
          ProcessBlock(block);
        } else {
          CopyInto(message, 0, block);
          assert message[..BLOCK_SIZE] == block;
          ProcessBlock(message[..BLOCK_SIZE]);
        }
        Filled(c, block, BLOCK_SIZE);
        TakeMore(m, msg, at, BLOCK_SIZE);
        at, size := at + BLOCK_SIZE, size - BLOCK_SIZE;
      }
      if size != 0 {
        CopyInto(message, 0, msg[at..]);
      }
      NoTail(m + msg[..at], BLOCK_SIZE);
      Fed(m + msg[..at], msg[at..], BLOCK_SIZE);
      SplitAt(m, msg, at);
    }

    method KeccakFinal(ghost m: Bytes) returns (result: Bytes)
      requires Holds(m)
      modifies hash, message
      ensures result == Digest(m, 0x01, 136, 32)
    {
      hide Absorb, BytesOf, XorInto, F, Digest, Padded;
      CopyInto(message, rest, Zeros(BLOCK_SIZE - rest));
      message[rest] := message[rest] | 0x01;
      message[BLOCK_SIZE - 1] := message[BLOCK_SIZE - 1] | 0x80;
      assert message[..BLOCK_SIZE] == Tail(m, BLOCK_SIZE) + Pad(|m|, 0x01, BLOCK_SIZE);
      PaddedIs(m, 0x01, BLOCK_SIZE);
      DigestIsPrefix(m, 0x01, BLOCK_SIZE, DIGEST_LENGTH);
      ProcessBlock(message[..BLOCK_SIZE]);
      result := BytesOf(hash[..])[..DIGEST_LENGTH];
    }
  }

  lemma ZeroState(s: State)
    requires Cleared(s)
    ensures BytesOf(s) == ZERO
  {
    hide ByteOf;
    forall j | 0 <= j < 200 ensures ByteOf(s[j / 8], j % 8) == 0 {
      ZeroByte(j % 8);
    }
  }

  lemma {:induction false} ZeroByte(k: nat)
    ensures ByteOf(0, k) == 0
    decreases k
  {
    if k > 0 {
      ZeroByte(k - 1);
    }
  }

  function Concat(pieces: seq<Bytes>): Bytes {
    if pieces == [] then [] else pieces[0] + Concat(pieces[1..])
  }

  lemma {:induction false} ConcatLast(pieces: seq<Bytes>, p: Bytes)
    ensures Concat(pieces + [p]) == Concat(pieces) + p
    decreases |pieces|
  {
    if pieces == [] {
    } else {
      assert (pieces + [p])[1..] == pieces[1..] + [p];
      ConcatLast(pieces[1..], p);
    }
  }

  /** However a message is cut into pieces, and wherever they lie, its digest is that of the whole. */
  method DigestOfPieces(pieces: seq<Bytes>, addresses: seq<nat>) returns (result: Bytes)
    requires |addresses| == |pieces|
    requires forall i :: 0 <= i < |pieces| ==> |pieces[i]| < 0x1_0000
    ensures result == Digest(Concat(pieces), 0x01, 136, 32)
  {
    hide Digest, Context.Holds;
    var ctx := new Context.Init();
    for i := 0 to |pieces|
      invariant fresh(ctx) && fresh(ctx.hash) && fresh(ctx.message)
      invariant ctx.Holds(Concat(pieces[..i]))
    {
      ctx.KeccakUpdate(pieces[i], addresses[i], Concat(pieces[..i]));
      ConcatLast(pieces[..i], pieces[i]);
      assert pieces[..i + 1] == pieces[..i] + [pieces[i]];
    }
    assert pieces[..|pieces|] == pieces;
    result := ctx.KeccakFinal(Concat(pieces));
  }
}
