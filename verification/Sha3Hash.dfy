/** sha3.c: SHA-3 and SHAKE, bytes added straight into the state. */
module Sha3Hash {
  import opened Keccak
  import opened LaneBytes
  import opened Sponge
  import Keccak256Hash
  import Sha3Permutation

  class Context {
    /** The byte view of the union st; its lane view is LanesOf(b[..]). */
    const b: array<Byte>
    var pt: nat
    const rsiz: nat
    const mdlen: nat

    ghost predicate Valid()
      reads this
    {
      b.Length == 200 && 0 < rsiz <= 200 && mdlen <= 200 && pt <= rsiz
    }

    /** The context has been given exactly m: the tail is already added to the permuted state. */
    ghost predicate Holds(m: Bytes)
      reads this, b
    {
      && Valid()
      && pt == Rest(|m|, rsiz)
      && b[..] == Mixed(m, rsiz)
    }

    /** n bytes of the output squeezed from s have been given. */
    ghost predicate Squeezing(s: StateBytes, n: nat)
      reads this, b
    {
      && Valid()
      && pt <= n && AtBlock(s, rsiz, n - pt, b[..])
    }

    constructor Init(mdlen: nat)
      requires mdlen < 100
      ensures Holds([]) && fresh(b) && rsiz == 200 - 2 * mdlen && this.mdlen == mdlen
    {
      hide Mixed, Rest, Zeros;
      b := new Byte[200];
      this.mdlen := mdlen;
      rsiz := 200 - 2 * mdlen;
      pt := 0;
      new;
      Keccak256Hash.CopyInto(b, 0, ZERO);
      NothingMixed(rsiz);
      RestIs(0, rsiz);
    }

    /** sha3_keccakf on the lane view of the state. */
    method KeccakF()
      requires Valid()
      modifies b
      ensures b[..] == F(old(b[..]))
    {
      hide LaneAt, ByteOf, Permutation;
      ghost var s: StateBytes := b[..];
      var q := new Lane[25];
      for i := 0 to 25
        invariant b[..] == s
        invariant forall k :: 0 <= k < i ==> q[k] == LanesOf(s)[k]
      {
        q[i] := LaneAt(b[..], i);
      }
      assert q[..] == LanesOf(s);
      Sha3Permutation.KeccakF(q);
      Keccak256Hash.CopyInto(b, 0, BytesOf(q[..]));
    }

    method Sha3Update(data: Bytes, ghost m: Bytes)
      requires Holds(m)
      modifies this, b
      ensures Holds(m + data)
    {
      hide Mixed, Rest, F, XorByte;
      var j := pt;
      assert m + data[..0] == m;
      for i := 0 to |data|
        invariant Valid() && j == Rest(|m + data[..i]|, rsiz)
        invariant b[..] == Mixed(m + data[..i], rsiz)
      {
        ghost var s := b[..];
        b[j] := XorByte(b[j], data[i]);
        assert b[..] == s[j := XorByte(s[j], data[i])];
        j := j + 1;
        if j >= rsiz {
          KeccakF();
          j := 0;
        }
        MixedMore(m + data[..i], data[i], rsiz);
        assert m + data[..i] + [data[i]] == m + data[..i + 1];
      }
      pt := j;
      assert data[..|data|] == data;
    }

    /** The padding and the last permutation, common to sha3_final and shake_xof. */
    method Finish(d: Byte, ghost m: Bytes)
      requires Holds(m) && d < 0x80
      modifies b
      ensures b[..] == Padded(m, d, rsiz)
    {
      hide Mixed, Padded, Rest, F, XorByte;
      ghost var s := b[..];
      MixedPadded(m, d, rsiz);
      b[pt] := XorByte(b[pt], d);
      b[rsiz - 1] := XorByte(b[rsiz - 1], 0x80);
      assert b[..] == WithPadding(s, pt, d, rsiz);
      KeccakF();
    }

    /** For mdlen above 66 the digest is longer than a block, and the code then gives out the state beyond the rate. */
    method Sha3Final(ghost m: Bytes) returns (md: Bytes)
      requires Holds(m)
      modifies b
      ensures md == Padded(m, 0x06, rsiz)[..mdlen]
      ensures mdlen <= rsiz ==> md == Digest(m, 0x06, rsiz, mdlen)
    {
      hide Padded, Digest;
      if mdlen <= rsiz {
        DigestIsPrefix(m, 0x06, rsiz, mdlen);
      }
      Finish(0x06, m);
      md := [];
      for i := 0 to mdlen
        invariant md == b[..i]
      {
        md := md + [b[i]];
      }
    }

    method ShakeXof(ghost m: Bytes)
      requires Holds(m)
      modifies this, b
      ensures Squeezing(Padded(m, 0x1F, rsiz), 0)
    {
      hide Padded, AtBlock;
      FirstBlock(Padded(m, 0x1F, rsiz), rsiz);
      Finish(0x1F, m);
      pt := 0;
    }

    method ShakeOut(len: nat, ghost s: StateBytes, ghost n: nat) returns (out: Bytes)
      requires Squeezing(s, n)
      modifies this, b
      ensures out == Output(s, rsiz, n, len)
      ensures Squeezing(s, n + len)
    {
      hide F, OutputByte, AtBlock;
      var j := pt;
      out := [];
      for i := 0 to len
        invariant Valid() && 0 <= j <= rsiz && j <= n + i && AtBlock(s, rsiz, n + i - j, b[..])
        invariant out == Output(s, rsiz, n, i)
      {
        if j >= rsiz {
          NextBlock(s, rsiz, n + i - j, b[..]);
          KeccakF();
          j := 0;
        }
        OutputAt(s, rsiz, n + i - j, b[..], j);
        out := out + [b[j]];
        j := j + 1;
      }
      pt := j;
    }
  }

  /** One call for the whole: sha3(in, inlen, md, mdlen). */
  method Sha3(data: Bytes, mdlen: nat) returns (md: Bytes)
    requires mdlen < 100
    ensures md == Padded(data, 0x06, 200 - 2 * mdlen)[..mdlen]
    ensures mdlen <= 66 ==> md == Digest(data, 0x06, 200 - 2 * mdlen, mdlen)
  {
    hide Digest, Padded, Context.Holds, Rest;
    var c := new Context.Init(mdlen);
    c.Sha3Update(data, []);
    assert [] + data == data;
    md := c.Sha3Final(data);
  }

  /** The two implementations hold the same stream: the pending bytes wait in message or are already added. */
  ghost predicate Related(k: Keccak256Hash.Context, c: Context)
    reads k, k.hash, k.message, c, c.b
  {
    && k.Valid() && c.Valid() && c.rsiz == Keccak256Hash.BLOCK_SIZE
    && c.pt == k.rest
    && c.b[..] == XorInto(BytesOf(k.hash[..]), k.message[..k.rest])
  }

  lemma SameStream(k: Keccak256Hash.Context, c: Context, m: Bytes)
    requires k.Holds(m) && c.Holds(m) && c.rsiz == Keccak256Hash.BLOCK_SIZE
    ensures Related(k, c)
  {
  }

  /** Fed the same pieces, the two stay related after every one of them. */
  method Lockstep(pieces: seq<Bytes>, addresses: seq<nat>)
    returns (k: Keccak256Hash.Context, c: Context)
    requires |addresses| == |pieces|
    requires forall i :: 0 <= i < |pieces| ==> |pieces[i]| < 0x1_0000
    ensures k.Holds(Keccak256Hash.Concat(pieces)) && c.Holds(Keccak256Hash.Concat(pieces))
    ensures Related(k, c)
  {
    hide Keccak256Hash.Context.Holds, Context.Holds, Related, Rest;
    k := new Keccak256Hash.Context.Init();
    c := new Context.Init(Keccak256Hash.DIGEST_LENGTH);
    SameStream(k, c, []);
    for i := 0 to |pieces|
      invariant fresh(k) && fresh(k.hash) && fresh(k.message) && fresh(c) && fresh(c.b)
      invariant {k, k.hash, k.message} !! {c, c.b} && c.rsiz == Keccak256Hash.BLOCK_SIZE
      invariant k.Holds(Keccak256Hash.Concat(pieces[..i])) && c.Holds(Keccak256Hash.Concat(pieces[..i]))
      invariant Related(k, c)
    {
      ghost var m := Keccak256Hash.Concat(pieces[..i]);
      k.KeccakUpdate(pieces[i], addresses[i], m);
      c.Sha3Update(pieces[i], m);
      Keccak256Hash.ConcatLast(pieces[..i], pieces[i]);
      assert pieces[..i + 1] == pieces[..i] + [pieces[i]];
      SameStream(k, c, m + pieces[i]);
    }
    assert pieces[..|pieces|] == pieces;
  }
}
