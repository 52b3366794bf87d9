/** The heap's memory as a sequence of words: chunk headers in band, the tiling of the used
    space by chunks, and the doubly linked free list threaded through the headers. */
module HeapModel {
  /** Words of a chunk header: prev, next, size, flags. */
  const HDR: int := 4
  const NULL: int := -1

  type Words = seq<int>

  ghost function At(m: Words, k: int): int {
    if 0 <= k < |m| then m[k] else 0
  }

  ghost function Prev(m: Words, c: int): int { At(m, c) }
  ghost function Next(m: Words, c: int): int { At(m, c + 1) }
  ghost function Size(m: Words, c: int): int { At(m, c + 2) }
  ghost predicate Allocated(m: Words, c: int) { At(m, c + 3) % 2 == 1 }

  /** NEXT_CHUNK: the offset just past a chunk. */
  ghost function End(m: Words, c: int): int { c + HDR + Size(m, c) }

  // ---- Tiling ------------------------------------------------------------------------

  /** The chunks in tiles lie end to end from 0 to usage. */
  ghost predicate Tiling(m: Words, tiles: set<int>, usage: int) {
    && 0 <= usage <= |m|
    && (usage > 0 ==> 0 in tiles)
    && (forall c :: c in tiles ==> 0 <= c && 0 <= Size(m, c) && End(m, c) <= usage)
    && (forall c {:trigger Abuts(m, tiles, usage, c)} :: c in tiles ==> Abuts(m, tiles, usage, c))
    && (forall c, d :: c in tiles && d in tiles && c < d ==> End(m, c) <= d)
  }

  /** A chunk ends at another chunk or at the end of the used space. */
  ghost predicate Abuts(m: Words, tiles: set<int>, usage: int, c: int) {
    End(m, c) == usage || End(m, c) in tiles
  }

  /** Headers at these offsets fit the memory and do not overlap. */
  ghost predicate Spaced(T: set<int>, n: int) {
    && (forall t :: t in T ==> 0 <= t <= n - HDR)
    && (forall s, t :: s in T && t in T && s < t ==> s + HDR <= t)
  }

  ghost predicate InHeader(T: set<int>, k: int) {
    exists t :: t in T && t <= k < t + HDR
  }

  // ---- The free list -----------------------------------------------------------------

  /** The chunks of fs, in order, are doubly linked from head. */
  ghost predicate Linked(m: Words, head: int, fs: seq<int>) {
    && head == (if fs == [] then NULL else fs[0])
    && (forall i :: 0 <= i < |fs| ==> LinkedAt(m, fs, i))
  }

  ghost predicate LinkedAt(m: Words, fs: seq<int>, i: int)
    requires 0 <= i < |fs|
  {
    && Prev(m, fs[i]) == (if i == 0 then NULL else fs[i - 1])
    && Next(m, fs[i]) == (if i == |fs| - 1 then NULL else fs[i + 1])
  }

  ghost predicate Distinct(fs: seq<int>) {
    forall i, j :: 0 <= i < j < |fs| ==> fs[i] != fs[j]
  }

  /** What list surgery may change: link words of the headers in T, and the flags of c. */
  ghost predicate OnlyLinks(m: Words, m': Words, T: set<int>, c: int) {
    && |m'| == |m|
    && (forall t :: t in T ==> Size(m', t) == Size(m, t))
    && (forall t :: t in T && t != c ==> Allocated(m', t) == Allocated(m, t))
    && OnlyHeaders(m, m', T)
  }

  /** Only words of the headers in T differ. */
  ghost predicate OnlyHeaders(m: Words, m': Words, T: set<int>) {
    && |m'| == |m|
    && (forall k :: !InHeader(T, k) ==> At(m', k) == At(m, k))
  }

  ghost predicate ListState(m: Words, head: int, fs: seq<int>, T: set<int>) {
    && Linked(m, head, fs)
    && Distinct(fs)
    && Spaced(T, |m|)
    && (forall f :: f in fs ==> f in T)
  }

  /** The memory after c's flags are cleared and it becomes the first of the list. */
  ghost function Pushed(m: Words, head: int, c: int, flags: int): (m': Words)
    requires 0 <= c <= |m| - HDR && (head == NULL || 0 <= head < |m|)
  {
    var m1 := m[c + 3 := flags][c := NULL][c + 1 := head];
    if head != NULL then m1[head := c] else m1
  }

  lemma PushKeeps(m: Words, head: int, fs: seq<int>, T: set<int>, c: int, flags: int)
    requires ListState(m, head, fs, T) && c in T && c !in fs && flags % 2 == 0
    ensures head == NULL || head in T
    ensures var m' := Pushed(m, head, c, flags);
      && ListState(m', c, [c] + fs, T)
      && OnlyLinks(m, m', T, c)
      && !Allocated(m', c)
  {
    if fs != [] { assert fs[0] in fs; }
    PushFrame(m, head, T, c, flags);
    PushLinks(m, head, fs, T, c, flags);
  }

  lemma PushLinks(m: Words, head: int, fs: seq<int>, T: set<int>, c: int, flags: int)
    requires ListState(m, head, fs, T) && c in T && c !in fs && (head == NULL || head in T)
    ensures Linked(Pushed(m, head, c, flags), c, [c] + fs)
  {
    var m' := Pushed(m, head, c, flags);
    var fs' := [c] + fs;
    forall i | 0 <= i < |fs'|
      ensures LinkedAt(m', fs', i)
    {
      if i > 0 {
        assert fs'[i] == fs[i - 1] && fs[i - 1] in fs;
        NeighboursInList(m, head, fs, T, i - 1);
      } else {
        assert fs'[i] == c;
        if fs != [] { assert fs'[1] == fs[0]; }
      }
    }
  }

  lemma PushFrame(m: Words, head: int, T: set<int>, c: int, flags: int)
    requires Spaced(T, |m|) && c in T && (head == NULL || head in T) && flags % 2 == 0 && head != c
    ensures OnlyLinks(m, Pushed(m, head, c, flags), T, c) && !Allocated(Pushed(m, head, c, flags), c)
  {
    var m' := Pushed(m, head, c, flags);
    forall k | !InHeader(T, k) ensures At(m', k) == At(m, k) {
      assert !(c <= k < c + HDR);
      if head != NULL { assert !(head <= k < head + HDR); }
    }
  }

  /** The memory after c is unlinked by allocate_chunk. */
  ghost function Unlinked(m: Words, head: int, c: int, flags: int): (m': Words)
    requires 0 <= c <= |m| - HDR
    requires var p, n := Prev(m, c), Next(m, c); (c == head || 0 <= p < |m| - 1) && (n == NULL || 0 <= n < |m|)
  {
    var p, n := Prev(m, c), Next(m, c);
    var m1 := m[c + 3 := flags];
    var m2 := if c == head then (if n != NULL then m1[n := NULL] else m1) else m1[p + 1 := n];
    if n != NULL then m2[n := p] else m2
  }

  ghost function RemoveAt(fs: seq<int>, i: int): seq<int>
    requires 0 <= i < |fs|
  {
    fs[..i] + fs[i + 1..]
  }

  lemma NeighboursInList(m: Words, head: int, fs: seq<int>, T: set<int>, i: int)
    requires ListState(m, head, fs, T) && 0 <= i < |fs|
    ensures var c := fs[i];
      && c in T && 0 <= c <= |m| - HDR
      && (c == head <==> i == 0)
      && (i > 0 ==> Prev(m, c) == fs[i - 1] && fs[i - 1] in T)
      && (i == 0 ==> Prev(m, c) == NULL)
      && (i < |fs| - 1 ==> Next(m, c) == fs[i + 1] && fs[i + 1] in T && Next(m, c) != NULL)
      && (i == |fs| - 1 ==> Next(m, c) == NULL)
  {
    assert fs[i] in fs && LinkedAt(m, fs, i);
    if i > 0 { assert fs[i - 1] in fs && fs[0] in fs; }
    if i < |fs| - 1 { assert fs[i + 1] in fs; }
  }

  lemma UnlinkKeeps(m: Words, head: int, fs: seq<int>, T: set<int>, i: int, flags: int)
    requires ListState(m, head, fs, T) && 0 <= i < |fs| && flags % 2 == 1
    ensures var c := fs[i]; var p, n := Prev(m, c), Next(m, c);
      && c in T && 0 <= c <= |m| - HDR
      && (c == head || 0 <= p < |m| - 1) && (n == NULL || 0 <= n < |m|)
      && var m' := Unlinked(m, head, c, flags);
      && ListState(m', if c == head then n else head, RemoveAt(fs, i), T)
      && OnlyLinks(m, m', T, c)
      && Allocated(m', c)
  {
    NeighboursInList(m, head, fs, T, i);
    UnlinkFrame(m, head, fs, T, i, flags);
    UnlinkLinks(m, head, fs, T, i, flags);
  }

  lemma UnlinkFrame(m: Words, head: int, fs: seq<int>, T: set<int>, i: int, flags: int)
    requires ListState(m, head, fs, T) && 0 <= i < |fs| && flags % 2 == 1
    requires var c := fs[i]; var p, n := Prev(m, c), Next(m, c);
      c in T && (c == head || 0 <= p < |m| - 1) && (n == NULL || 0 <= n < |m|)
    ensures OnlyLinks(m, Unlinked(m, head, fs[i], flags), T, fs[i]) && Allocated(Unlinked(m, head, fs[i], flags), fs[i])
  {
    NeighboursInList(m, head, fs, T, i);
    var c := fs[i];
    var m' := Unlinked(m, head, c, flags);
    forall k | !InHeader(T, k) ensures At(m', k) == At(m, k) {
      assert !(c <= k < c + HDR);
      if i > 0 { assert !(fs[i - 1] <= k < fs[i - 1] + HDR); }
      if i < |fs| - 1 { assert !(fs[i + 1] <= k < fs[i + 1] + HDR); }
    }
  }

  lemma UnlinkLinks(m: Words, head: int, fs: seq<int>, T: set<int>, i: int, flags: int)
    requires ListState(m, head, fs, T) && 0 <= i < |fs|
    requires var c := fs[i]; var p, n := Prev(m, c), Next(m, c);
      c in T && (c == head || 0 <= p < |m| - 1) && (n == NULL || 0 <= n < |m|)
    ensures var c := fs[i];
      Linked(Unlinked(m, head, c, flags), if c == head then Next(m, c) else head, RemoveAt(fs, i))
  {
    NeighboursInList(m, head, fs, T, i);
    var c := fs[i];
    var m' := Unlinked(m, head, c, flags);
    var gs := RemoveAt(fs, i);
    forall j | 0 <= j < |gs|
      ensures LinkedAt(m', gs, j)
    {
      var o := if j < i then j else j + 1;
      assert gs[j] == fs[o];
      if j > 0 { assert gs[j - 1] == fs[if j - 1 < i then j - 1 else j]; }
      if j < |gs| - 1 { assert gs[j + 1] == fs[if j + 1 < i then j + 1 else j + 2]; }
      NeighboursInList(m, head, fs, T, o);
      UnlinkAt(m, head, fs, T, i, flags, o);
    }
  }

  lemma UnlinkAt(m: Words, head: int, fs: seq<int>, T: set<int>, i: int, flags: int, o: int)
    requires ListState(m, head, fs, T) && 0 <= i < |fs| && 0 <= o < |fs| && o != i
    requires var c := fs[i]; var p, n := Prev(m, c), Next(m, c);
      c in T && (c == head || 0 <= p < |m| - 1) && (n == NULL || 0 <= n < |m|)
    ensures var m' := Unlinked(m, head, fs[i], flags);
      && Prev(m', fs[o]) == (if o == i + 1 then (if i == 0 then NULL else fs[i - 1]) else Prev(m, fs[o]))
      && Next(m', fs[o]) == (if o == i - 1 then (if i == |fs| - 1 then NULL else fs[i + 1]) else Next(m, fs[o]))
  {
    NeighboursInList(m, head, fs, T, i);
    NeighboursInList(m, head, fs, T, o);
  }

  // ---- Live blocks -------------------------------------------------------------------

  /** Tiles and free list agree: the list holds precisely the unallocated chunks, once each. */
  ghost predicate HeapOk(m: Words, usage: int, head: int, tiles: set<int>, fs: seq<int>) {
    && Tiling(m, tiles, usage)
    && ListState(m, head, fs, tiles)
    && (forall c :: c in tiles ==> (c in fs <==> !Allocated(m, c)))
  }

  ghost predicate Live(m: Words, tiles: set<int>, c: int) {
    c in tiles && Allocated(m, c)
  }

  /** The words a block's owner may use. */
  ghost function Block(m: Words, c: int): Words {
    if 0 <= c + HDR <= End(m, c) <= |m| then m[c + HDR..End(m, c)] else []
  }

  /** Outside the chunks in ex, the same blocks are live and hold the same words. */
  ghost predicate SameBlocks(m: Words, tiles: set<int>, m': Words, tiles': set<int>, ex: set<int>) {
    forall c :: c !in ex ==>
      && (Live(m, tiles, c) <==> Live(m', tiles', c))
      && (Live(m, tiles, c) ==> Block(m', c) == Block(m, c))
  }

  lemma SameBlocksTrans(m: Words, t: set<int>, m1: Words, t1: set<int>, m2: Words, t2: set<int>, ex: set<int>)
    requires SameBlocks(m, t, m1, t1, ex) && SameBlocks(m1, t1, m2, t2, ex)
    ensures SameBlocks(m, t, m2, t2, ex)
  {
  }

  lemma TilingSpaced(m: Words, tiles: set<int>, usage: int)
    requires Tiling(m, tiles, usage)
    ensures Spaced(tiles, |m|)
  {
  }

  /** No word of a chunk's payload is part of a header. */
  lemma PayloadIsNotHeader(m: Words, tiles: set<int>, usage: int, c: int, k: int)
    requires Tiling(m, tiles, usage) && c in tiles && c + HDR <= k < End(m, c)
    ensures !InHeader(tiles, k)
  {
    forall t | t in tiles ensures !(t <= k < t + HDR) {
      if t < c {
        assert End(m, t) <= c;
      } else if c < t {
        assert End(m, c) <= t;
      }
    }
  }

  lemma BlockEqual(m: Words, m': Words, c: int)
    requires |m'| == |m| && Size(m', c) == Size(m, c)
    requires forall k :: c + HDR <= k < End(m, c) ==> At(m', k) == At(m, k)
    ensures Block(m', c) == Block(m, c)
  {
    if 0 <= c + HDR <= End(m, c) <= |m| {
      forall i | 0 <= i < |Block(m, c)| ensures Block(m', c)[i] == Block(m, c)[i] {
        assert At(m', c + HDR + i) == At(m, c + HDR + i);
      }
    }
  }

  /** Words of a chunk's payload survive writes that stay inside headers. */
  lemma SamePayload(x: Words, T: set<int>, usage: int, m: Words, m': Words, d: int)
    requires Tiling(x, T, usage) && OnlyHeaders(m, m', T) && d in T
    ensures forall k :: d + HDR <= k < End(x, d) ==> At(m', k) == At(m, k)
  {
    forall k | d + HDR <= k < End(x, d) ensures At(m', k) == At(m, k) {
      PayloadIsNotHeader(x, T, usage, d, k);
    }
  }

  /** A block that keeps its size across header writes keeps its contents. */
  lemma SameBlock(x: Words, T: set<int>, usage: int, m: Words, m': Words, d: int)
    requires Tiling(x, T, usage) && OnlyHeaders(m, m', T) && d in T
    requires Size(m, d) == Size(m', d) == Size(x, d)
    ensures Block(m', d) == Block(m, d)
  {
    SamePayload(x, T, usage, m, m', d);
    BlockEqual(m, m', d);
  }

  /** A block cut short keeps what is left. */
  lemma ShrunkBlock(T: set<int>, usage: int, m: Words, m': Words, d: int)
    requires Tiling(m', T, usage) && OnlyHeaders(m, m', T) && d in T
    requires Size(m', d) <= Size(m, d) && End(m, d) <= |m|
    ensures 0 <= Size(m', d) <= |Block(m, d)| && Block(m', d) == Block(m, d)[..Size(m', d)]
  {
    SamePayload(m', T, usage, m, m', d);
    forall i | 0 <= i < Size(m', d) ensures Block(m', d)[i] == Block(m, d)[i] {
      assert At(m', d + HDR + i) == At(m, d + HDR + i);
    }
  }

  /** A block extended keeps what it had. */
  lemma GrownBlock(T: set<int>, usage: int, m: Words, m': Words, d: int)
    requires Tiling(m, T, usage) && OnlyHeaders(m, m', T) && d in T
    requires Size(m', d) >= Size(m, d) && End(m', d) <= |m|
    ensures Size(m, d) == |Block(m, d)| <= |Block(m', d)| && Block(m', d)[..Size(m, d)] == Block(m, d)
  {
    SamePayload(m, T, usage, m, m', d);
    forall i | 0 <= i < Size(m, d) ensures Block(m', d)[i] == Block(m, d)[i] {
      assert At(m', d + HDR + i) == At(m, d + HDR + i);
    }
  }

  lemma TilingBySizes(m: Words, m': Words, tiles: set<int>, usage: int)
    requires Tiling(m, tiles, usage) && |m'| == |m|
    requires forall t :: t in tiles ==> Size(m', t) == Size(m, t)
    ensures Tiling(m', tiles, usage)
  {
    hide Size;
    forall c | c in tiles ensures Abuts(m', tiles, usage, c) {
      assert Abuts(m, tiles, usage, c);
    }
  }

  /** List surgery leaves the tiling and every block's contents alone. */
  lemma LinksKeepTiling(m: Words, m': Words, tiles: set<int>, usage: int, c: int)
    requires Tiling(m, tiles, usage) && OnlyLinks(m, m', tiles, c)
    ensures Tiling(m', tiles, usage)
    ensures SameBlocks(m, tiles, m', tiles, {c})
    ensures c in tiles ==> Block(m', c) == Block(m, c)
  {
    hide Block, Tiling, Size, OnlyHeaders;
    TilingBySizes(m, m', tiles, usage);
    forall d | d in tiles ensures Block(m', d) == Block(m, d) {
      SameBlock(m, tiles, usage, m, m', d);
    }
  }

  /** The list does not notice writes outside the headers it links, nor more headers. */
  lemma ListFrame(m: Words, m': Words, head: int, fs: seq<int>, T: set<int>, T': set<int>)
    requires ListState(m, head, fs, T) && Spaced(T', |m'|) && T <= T' && |m'| == |m|
    requires forall f :: f in fs ==> Prev(m', f) == Prev(m, f) && Next(m', f) == Next(m, f)
    ensures ListState(m', head, fs, T')
  {
    forall i | 0 <= i < |fs| ensures LinkedAt(m', fs, i) {
      assert fs[i] in fs && LinkedAt(m, fs, i);
    }
  }

  // ---- Changes of the tiling ---------------------------------------------------------

  ghost predicate SizesSame(m: Words, m': Words, T: set<int>) {
    |m'| == |m| && forall t :: t in T ==> Size(m', t) == Size(m, t)
  }

  /** Coalescing: c swallows its right neighbour n. */
  lemma MergeTiling(m: Words, m': Words, tiles: set<int>, usage: int, c: int, n: int)
    requires Tiling(m, tiles, usage) && c in tiles && n in tiles && End(m, c) == n
    requires SizesSame(m, m', tiles - {c}) && Size(m', c) == Size(m, c) + HDR + Size(m, n)
    ensures Tiling(m', tiles - {n}, usage)
  {
    hide Size;
    forall d | d in tiles - {n} ensures Abuts(m', tiles - {n}, usage, d) {
      assert Abuts(m, tiles, usage, d) && Abuts(m, tiles, usage, n);
    }
  }

  /** Splitting: the rest of c from word off on becomes a chunk of its own. */
  lemma SplitTiling(m: Words, m': Words, tiles: set<int>, usage: int, c: int, off: int)
    requires Tiling(m, tiles, usage) && c in tiles && 0 <= off && off + HDR <= Size(m, c)
    requires SizesSame(m, m', tiles - {c}) && Size(m', c) == off
    requires Size(m', c + HDR + off) == Size(m, c) - HDR - off
    ensures c + HDR + off !in tiles
    ensures Tiling(m', tiles + {c + HDR + off}, usage)
  {
    hide Size;
    var rest := c + HDR + off;
    var tiles' := tiles + {rest};
    ChunkFits(m, tiles, usage, c);
    forall a | a in tiles' ensures 0 <= a && 0 <= Size(m', a) && End(m', a) <= usage {
      if a != rest { ChunkFits(m, tiles, usage, a); }
    }
    assert End(m', rest) == End(m, c) && End(m', c) == rest;
    forall a, b | a in tiles' && b in tiles' && a < b ensures End(m', a) <= b {
      SplitOrder(m, m', tiles, usage, c, rest, a, b);
    }
    forall d | d in tiles' ensures Abuts(m', tiles', usage, d) {
      assert Abuts(m, tiles, usage, d) || d == rest;
      assert Abuts(m, tiles, usage, c);
    }
  }

  /** The chunks stay apart when rest, inside c, becomes one of them. */
  lemma SplitOrder(m: Words, m': Words, tiles: set<int>, usage: int, c: int, rest: int, a: int, b: int)
    requires Tiling(m, tiles, usage) && c in tiles && c < rest && rest + HDR <= End(m, c)
    requires SizesSame(m, m', tiles - {c}) && End(m', c) == rest && End(m', rest) == End(m, c)
    requires a in tiles + {rest} && b in tiles + {rest} && a < b
    ensures End(m', a) <= b
  {
    hide Size;
    if a == rest {
      assert c < b;
      assert End(m, c) <= b;
    } else if b == rest {
      assert a < c || a == c || a > c;
    }
  }

  /** Releasing: the last chunk is given back. */
  lemma ReleaseTiling(m: Words, tiles: set<int>, usage: int, c: int)
    requires Tiling(m, tiles, usage) && c in tiles && End(m, c) == usage
    ensures Tiling(m, tiles - {c}, c)
  {
    hide Size;
    forall d | d in tiles - {c} ensures Abuts(m, tiles - {c}, c, d) {
      assert Abuts(m, tiles, usage, d);
    }
  }

  /** Extending: a new chunk is laid at the end of the used space. */
  lemma ExtendTiling(m: Words, m': Words, tiles: set<int>, usage: int, size: int)
    requires Tiling(m, tiles, usage) && 0 <= size && usage + HDR + size <= |m|
    requires SizesSame(m, m', tiles) && Size(m', usage) == size
    ensures usage !in tiles && Tiling(m', tiles + {usage}, usage + HDR + size)
  {
    hide Size;
    forall d | d in tiles + {usage} ensures Abuts(m', tiles + {usage}, usage + HDR + size, d) {
      assert d == usage || Abuts(m, tiles, usage, d);
    }
  }

  /** Growing: the last chunk is made larger in place. */
  lemma GrowTiling(m: Words, m': Words, tiles: set<int>, usage: int, c: int, more: int)
    requires Tiling(m, tiles, usage) && c in tiles && End(m, c) == usage && 0 <= more && usage + more <= |m|
    requires SizesSame(m, m', tiles - {c}) && Size(m', c) == Size(m, c) + more
    ensures Tiling(m', tiles, usage + more)
  {
    hide Size;
    forall d | d in tiles ensures Abuts(m', tiles, usage + more, d) {
      assert Abuts(m, tiles, usage, d);
    }
  }

  // ---- Coalescing --------------------------------------------------------------------

  /** c has swallowed some of the free chunks to its right; nothing else changed. */
  ghost predicate Coalesced(m: Words, tiles: set<int>, m': Words, tiles': set<int>, c: int) {
    && c in tiles' && tiles' <= tiles && |m'| == |m|
    && Size(m, c) <= Size(m', c)
    && (forall t :: t in tiles' ==> Allocated(m', t) == Allocated(m, t))
    && (forall t :: t in tiles' && t != c ==> Size(m', t) == Size(m, t))
    && (forall t :: t in tiles && t !in tiles' ==> c < t < End(m', c) && !Allocated(m, t))
    && (forall d :: d in tiles' && d != c ==> Block(m', d) == Block(m, d))
    && Block(m, c) <= Block(m', c)
  }

  lemma CoalescedTrans(m: Words, t: set<int>, m1: Words, t1: set<int>, m2: Words, t2: set<int>, c: int)
    requires Coalesced(m, t, m1, t1, c) && Coalesced(m1, t1, m2, t2, c)
    ensures Coalesced(m, t, m2, t2, c)
  {
    hide Block, Size;
  }

  lemma CoalescedBlocks(m: Words, tiles: set<int>, m': Words, tiles': set<int>, c: int)
    requires Coalesced(m, tiles, m', tiles', c)
    ensures SameBlocks(m, tiles, m', tiles', if Allocated(m, c) then {c} else {})
  {
  }

  /** One turn of coalesce_chunks: c's size grows over its free neighbour n, which leaves the list. */
  lemma CoalesceStep(m: Words, m1: Words, m2: Words, usage: int, head: int, fs: seq<int>, head': int, fs': seq<int>,
                     tiles: set<int>, c: int, n: int)
    requires HeapOk(m, usage, head, tiles, fs)
    requires c in tiles && n in tiles && End(m, c) == n && !Allocated(m, n) && 0 <= c <= |m| - HDR
    requires (forall f :: f in fs ==> f in tiles)
    requires m1 == m[c + 2 := Size(m, c) + HDR + Size(m, n)]
    requires OnlyLinks(m1, m2, tiles, n) && Allocated(m2, n)
    requires ListState(m2, head', fs', tiles) && (forall f :: f in fs' <==> f in fs && f != n)
    ensures HeapOk(m2, usage, head', tiles - {n}, fs')
    ensures Coalesced(m, tiles, m2, tiles - {n}, c)
    ensures End(m2, c) == End(m, n)
  {
    hide Tiling, ListState, Block, Size, LinkedAt;
    ChunkFits(m, tiles, usage, c);
    ChunkFits(m, tiles, usage, n);
    TilingSpaced(m, tiles, usage);
    MergeSizes(m, m1, m2, tiles, c, n);
    MergeTiling(m, m2, tiles, usage, c, n);
    CoalesceBlocks(m, m1, m2, usage, tiles, c, n);
    ListSubset(m2, head', fs', tiles, tiles - {n});
  }

  lemma MergeSizes(m: Words, m1: Words, m2: Words, tiles: set<int>, c: int, n: int)
    requires c in tiles && n in tiles && c < n && Spaced(tiles, |m|)
    requires m1 == m[c + 2 := Size(m, c) + HDR + Size(m, n)]
    requires OnlyLinks(m1, m2, tiles, n)
    ensures SizesSame(m, m2, tiles - {c}) && Size(m2, c) == Size(m, c) + HDR + Size(m, n)
    ensures forall t :: t in tiles && t != n ==> Allocated(m2, t) == Allocated(m, t)
  {
    hide OnlyHeaders;
    forall t | t in tiles ensures (t != c ==> Size(m1, t) == Size(m, t)) && (Allocated(m1, t) == Allocated(m, t)) {
      assert t < c ==> t + HDR <= c;
      assert c < t ==> c + HDR <= t;
    }
  }

  lemma CoalesceBlocks(m: Words, m1: Words, m2: Words, usage: int, tiles: set<int>, c: int, n: int)
    requires Tiling(m, tiles, usage) && c in tiles && n in tiles && c != n
    requires 0 <= c <= |m| - HDR && m1 == m[c + 2 := Size(m, c) + HDR + Size(m, n)]
    requires OnlyLinks(m1, m2, tiles, n) && Tiling(m2, tiles - {n}, usage)
    ensures forall d :: d in tiles - {n} && d != c ==> Block(m2, d) == Block(m, d)
    ensures Block(m, c) <= Block(m2, c)
  {
    hide Tiling, Block;
    TilingSpaced(m, tiles, usage);
    assert OnlyHeaders(m, m2, tiles) by { SizeWrite(m, m1, m2, tiles, c, n); }
    forall d | d in tiles - {n} && d != c ensures Block(m2, d) == Block(m, d) {
      SameBlock(m, tiles, usage, m, m2, d);
    }
    ChunkFits(m, tiles, usage, n);
    ChunkFits(m2, tiles - {n}, usage, c);
    GrownBlock(tiles, usage, m, m2, c);
  }

  lemma ChunkFits(m: Words, tiles: set<int>, usage: int, c: int)
    requires Tiling(m, tiles, usage) && c in tiles
    ensures 0 <= c && 0 <= Size(m, c) && End(m, c) <= usage <= |m|
  {
  }

  lemma SizeWrite(m: Words, m1: Words, m2: Words, tiles: set<int>, c: int, n: int)
    requires c in tiles && Spaced(tiles, |m|) && |m1| == |m| && m1 == m[c + 2 := m1[c + 2]]
    requires OnlyLinks(m1, m2, tiles, n)
    ensures OnlyHeaders(m, m2, tiles)
  {
    forall k | !InHeader(tiles, k) ensures At(m2, k) == At(m, k) {
      assert !(c <= k < c + HDR);
    }
  }

  // ---- Splitting ---------------------------------------------------------------------

  /** Laying a header for the rest of c inside c's payload does not disturb the list. */
  lemma SplitHeader(m: Words, usage: int, head: int, tiles: set<int>, fs: seq<int>, c: int, off: int)
    requires HeapOk(m, usage, head, tiles, fs) && c in tiles && 0 <= off && off + HDR < Size(m, c)
    ensures var rest := c + HDR + off; var m1 := m[rest + 2 := Size(m, c) - HDR - off][rest + 3 := 0];
      && rest !in tiles
      && (forall f :: f in fs ==> f in tiles)
      && Size(m1, rest) == Size(m, c) - HDR - off
      && ListState(m1, head, fs, tiles + {rest})
      && OnlyHeaders(m, m1, tiles + {rest})
      && SizesSame(m, m1, tiles)
      && (forall t :: t in tiles ==> Allocated(m1, t) == Allocated(m, t))
  {
    var rest := c + HDR + off;
    var m1 := m[rest + 2 := Size(m, c) - HDR - off][rest + 3 := 0];
    SplitSpaced(m, usage, tiles, c, off);
    forall t | t in tiles ensures t + HDR <= rest || rest + HDR <= t {
      if t > rest { assert c < t; }
    }
    forall f | f in fs ensures Prev(m1, f) == Prev(m, f) && Next(m1, f) == Next(m, f) {
      assert f in tiles;
    }
    ListFrame(m, m1, head, fs, tiles, tiles + {rest});
    forall k | !InHeader(tiles + {rest}, k) ensures At(m1, k) == At(m, k) {
      assert rest in tiles + {rest};
      assert !(rest <= k < rest + HDR);
    }
  }

  lemma SplitSpaced(m: Words, usage: int, tiles: set<int>, c: int, off: int)
    requires Tiling(m, tiles, usage) && c in tiles && 0 <= off && off + HDR < Size(m, c)
    ensures c + HDR + off !in tiles && Spaced(tiles + {c + HDR + off}, |m|)
  {
    var rest := c + HDR + off;
    forall t | t in tiles ensures t != rest && (t + HDR <= rest || rest + HDR <= t) {
      if t < c {
        assert End(m, t) <= c;
      } else if c < t {
        assert End(m, c) <= t;
      }
    }
  }

  /** The memory when split_chunk has set c's own header last. */
  ghost function Cut(m: Words, c: int, off: int): (m': Words)
    requires 0 <= c <= |m| - HDR
  {
    m[c + 2 := off][c + 1 := NULL][c := NULL]
  }

  lemma SplitStep(m: Words, m1: Words, m2: Words, usage: int, usage': int, head: int, head': int,
                  tiles: set<int>, fs: seq<int>, fs': seq<int>, c: int, off: int)
    requires HeapOk(m, usage, head, tiles, fs) && Live(m, tiles, c) && 0 <= off && off + HDR < Size(m, c)
    requires |m1| == |m| == |m2| && 0 <= c + HDR + off <= |m| - HDR
    requires m1 == m[c + HDR + off + 2 := Size(m, c) - HDR - off][c + HDR + off + 3 := 0]
    requires OnlyLinks(m1, m2, tiles + {c + HDR + off}, c + HDR + off) && !Allocated(m2, c + HDR + off)
    requires ListState(m2, head', fs', tiles + {c + HDR + off})
    requires if End(m, c) == usage then usage' == c + HDR + off && fs' == fs
             else usage' == usage && fs' == [c + HDR + off] + fs
    ensures 0 <= c <= |m2| - HDR
    ensures var m3 := Cut(m2, c, off); var tiles' := if End(m, c) == usage then tiles else tiles + {c + HDR + off};
      && HeapOk(m3, usage', head', tiles', fs')
      && Live(m3, tiles', c) && Size(m3, c) == off && |m3| == |m|
      && SameBlocks(m, tiles, m3, tiles', {c})
      && off <= |Block(m, c)| && Block(m3, c) == Block(m, c)[..off]
  {
    hide Block, Tiling, ListState, OnlyHeaders, Size, Allocated;
    var rest := c + HDR + off;
    var T := tiles + {rest};
    var released := End(m, c) == usage;
    var tiles' := if released then tiles else T;
    SplitHeader(m, usage, head, tiles, fs, c, off);
    ChunkFits(m, tiles, usage, c);
    var m3 := Cut(m2, c, off);
    CutFrame(m2, head', fs', T, c, off);
    OnlyHeadersTrans(m, m1, m2, T);
    OnlyHeadersTrans(m, m2, m3, T);
    SplitTiling(m, m3, tiles, usage, c, off);
    SplitBlocks(m, m3, usage, tiles, c, off);
    if released {
      ReleaseTiling(m3, T, usage, rest);
      assert T - {rest} == tiles;
      ListSubset(m3, head', fs', T, tiles);
    }
    assert forall t :: t in tiles ==> Allocated(m3, t) == Allocated(m, t);
  }

  lemma ListSubset(m: Words, head: int, fs: seq<int>, T: set<int>, T': set<int>)
    requires ListState(m, head, fs, T) && T' <= T && (forall f :: f in fs ==> f in T')
    ensures ListState(m, head, fs, T')
  {
  }

  lemma OnlyHeadersTrans(m: Words, m1: Words, m2: Words, T: set<int>)
    requires OnlyHeaders(m, m1, T) && OnlyHeaders(m1, m2, T)
    ensures OnlyHeaders(m, m2, T)
  {
  }

  lemma CutFrame(m: Words, head: int, fs: seq<int>, T: set<int>, c: int, off: int)
    requires ListState(m, head, fs, T) && c in T && c !in fs
    ensures var m' := Cut(m, c, off);
      && ListState(m', head, fs, T) && OnlyHeaders(m, m', T)
      && SizesSame(m, m', T - {c}) && Size(m', c) == off
      && (forall t :: t in T ==> Allocated(m', t) == Allocated(m, t))
  {
    var m' := Cut(m, c, off);
    forall f | f in fs ensures Prev(m', f) == Prev(m, f) && Next(m', f) == Next(m, f) {
      assert f in T && f != c;
    }
    ListFrame(m, m', head, fs, T, T);
    forall k | !InHeader(T, k) ensures At(m', k) == At(m, k) {
      assert !(c <= k < c + HDR);
    }
  }

  lemma SplitBlocks(m: Words, m3: Words, usage: int, tiles: set<int>, c: int, off: int)
    requires Tiling(m, tiles, usage) && c in tiles && 0 <= off <= Size(m, c)
    requires OnlyHeaders(m, m3, tiles + {c + HDR + off}) && Tiling(m3, tiles + {c + HDR + off}, usage)
    requires SizesSame(m, m3, tiles - {c}) && Size(m3, c) == off
    ensures forall d :: d in tiles && d != c ==> Block(m3, d) == Block(m, d)
    ensures off <= |Block(m, c)| && Block(m3, c) == Block(m, c)[..off]
  {
    hide Block, Tiling;
    var T := tiles + {c + HDR + off};
    ChunkFits(m, tiles, usage, c);
    ShrunkBlock(T, usage, m, m3, c);
    forall d | d in tiles && d != c ensures Block(m3, d) == Block(m, d) {
      SameBlock(m3, T, usage, m, m3, d);
    }
  }

  // ---- Allocating and freeing --------------------------------------------------------

  /** Taking a chunk off the list makes it live and changes no other block. */
  lemma AllocateState(m: Words, m': Words, usage: int, head: int, fs: seq<int>, head': int, fs': seq<int>,
                      tiles: set<int>, c: int)
    requires HeapOk(m, usage, head, tiles, fs) && c in fs
    requires OnlyLinks(m, m', tiles, c) && Allocated(m', c) && ListState(m', head', fs', tiles)
    requires forall f :: f in fs' <==> f in fs && f != c
    ensures HeapOk(m', usage, head', tiles, fs')
    ensures !Live(m, tiles, c) && Live(m', tiles, c) && SameBlocks(m, tiles, m', tiles, {c}) && Size(m', c) == Size(m, c)
  {
    hide Tiling, Block, Size, LinkedAt;
    LinksKeepTiling(m, m', tiles, usage, c);
  }

  /** free_chunk, on the whole heap: the chunk is released or listed. */
  lemma FreeState(m: Words, m': Words, usage: int, usage': int, head: int, fs: seq<int>, head': int, fs': seq<int>,
                  tiles: set<int>, c: int)
    requires HeapOk(m, usage, head, tiles, fs) && Live(m, tiles, c)
    requires OnlyLinks(m, m', tiles, c) && !Allocated(m', c) && ListState(m', head', fs', tiles)
    requires if End(m, c) == usage then usage' == c && fs' == fs else usage' == usage && fs' == [c] + fs
    ensures var tiles' := if End(m, c) == usage then tiles - {c} else tiles;
      && HeapOk(m', usage', head', tiles', fs')
      && SameBlocks(m, tiles, m', tiles', {c}) && !Live(m', tiles', c)
  {
    hide Tiling, Block, Size, LinkedAt;
    LinksKeepTiling(m, m', tiles, usage, c);
    if End(m, c) == usage {
      ReleaseTiling(m', tiles, usage, c);
      ListSubset(m', head', fs', tiles, tiles - {c});
    }
  }

  /** A chunk laid at the end of the used space is live. */
  lemma ExtendState(m: Words, m': Words, usage: int, head: int, tiles: set<int>, fs: seq<int>, size: int)
    requires HeapOk(m, usage, head, tiles, fs) && 0 <= size && usage + HDR + size <= |m|
    requires 0 <= usage && m' == m[usage + 2 := size][usage + 3 := 1]
    ensures HeapOk(m', usage + HDR + size, head, tiles + {usage}, fs)
    ensures !Live(m, tiles, usage) && Live(m', tiles + {usage}, usage) && Size(m', usage) == size
    ensures SameBlocks(m, tiles, m', tiles + {usage}, {usage})
  {
    hide Tiling, Block, LinkedAt;
    var T := tiles + {usage};
    BeyondTiles(m, tiles, usage);
    ExtendTiling(m, m', tiles, usage, size);
    TilingSpaced(m', T, usage + HDR + size);
    forall f | f in fs ensures Prev(m', f) == Prev(m, f) && Next(m', f) == Next(m, f) {
      assert f in tiles;
    }
    ListFrame(m, m', head, fs, tiles, T);
    assert OnlyHeaders(m, m', T) by { HeaderWrite(m, m', T, usage); }
    forall d | d in tiles ensures Block(m', d) == Block(m, d) {
      SameBlock(m', T, usage + HDR + size, m, m', d);
    }
  }

  /** Marking a live chunk allocated again changes nothing. */
  lemma FlagsState(m: Words, usage: int, head: int, tiles: set<int>, fs: seq<int>, c: int)
    requires HeapOk(m, usage, head, tiles, fs) && Live(m, tiles, c)
    ensures 0 <= c <= |m| - HDR
    ensures var m' := m[c + 3 := 1];
      && HeapOk(m', usage, head, tiles, fs)
      && SameBlocks(m, tiles, m', tiles, {}) && Live(m', tiles, c) && Block(m', c) == Block(m, c)
  {
    hide Tiling, Block, LinkedAt;
    ChunkFits(m, tiles, usage, c);
    var m' := m[c + 3 := 1];
    TilingBySizes(m, m', tiles, usage);
    ListFrame(m, m', head, fs, tiles, tiles);
    HeaderWrite(m, m', tiles, c);
    forall d | d in tiles ensures Block(m', d) == Block(m, d) {
      SameBlock(m, tiles, usage, m, m', d);
    }
  }

  lemma BeyondTiles(m: Words, tiles: set<int>, usage: int)
    requires Tiling(m, tiles, usage)
    ensures forall t :: t in tiles ==> t + HDR <= usage
  {
  }

  lemma HeaderWrite(m: Words, m': Words, T: set<int>, c: int)
    requires c in T && |m'| == |m| && forall k :: !(c <= k < c + HDR) ==> At(m', k) == At(m, k)
    ensures OnlyHeaders(m, m', T)
  {
    forall k | !InHeader(T, k) ensures At(m', k) == At(m, k) {
      assert !(c <= k < c + HDR);
    }
  }

  /** The last chunk grows in place. */
  lemma GrowState(m: Words, m': Words, usage: int, head: int, tiles: set<int>, fs: seq<int>, c: int, more: int)
    requires HeapOk(m, usage, head, tiles, fs) && Live(m, tiles, c) && End(m, c) == usage
    requires 0 <= more && usage + more <= |m| && 0 <= c <= |m| - HDR && m' == m[c + 2 := Size(m, c) + more]
    ensures HeapOk(m', usage + more, head, tiles, fs)
    ensures Live(m', tiles, c) && Size(m', c) == Size(m, c) + more
    ensures SameBlocks(m, tiles, m', tiles, {c}) && Block(m, c) <= Block(m', c)
  {
    hide Tiling, Block, LinkedAt;
    ChunkFits(m, tiles, usage, c);
    GrowTiling(m, m', tiles, usage, c, more);
    forall f | f in fs ensures Prev(m', f) == Prev(m, f) && Next(m', f) == Next(m, f) {
      assert f in tiles;
    }
    ListFrame(m, m', head, fs, tiles, tiles);
    assert OnlyHeaders(m, m', tiles) by { HeaderWrite(m, m', tiles, c); }
    forall d | d in tiles && d != c ensures Block(m', d) == Block(m, d) {
      SameBlock(m, tiles, usage, m, m', d);
    }
    GrownBlock(tiles, usage, m, m', c);
  }

  /** The owner of a block may write its words; the heap and the other blocks do not change. */
  lemma StoreState(m: Words, usage: int, head: int, tiles: set<int>, fs: seq<int>, c: int, k: int, v: int)
    requires HeapOk(m, usage, head, tiles, fs) && Live(m, tiles, c) && c + HDR <= k < End(m, c)
    ensures 0 <= k < |m|
    ensures var m' := m[k := v];
      && HeapOk(m', usage, head, tiles, fs)
      && SameBlocks(m, tiles, m', tiles, {c}) && Live(m', tiles, c) && Size(m', c) == Size(m, c)
      && 0 <= k - c - HDR < |Block(m, c)| && Block(m', c) == Block(m, c)[k - c - HDR := v]
  {
    hide Tiling, Block, LinkedAt;
    ChunkFits(m, tiles, usage, c);
    var m' := m[k := v];
    PayloadIsNotHeader(m, tiles, usage, c, k);
    forall t | t in tiles ensures t + HDR <= k || k < t {
      assert !(t <= k < t + HDR);
    }
    TilingBySizes(m, m', tiles, usage);
    ListFrame(m, m', head, fs, tiles, tiles);
    forall d | d in tiles && d != c ensures Block(m', d) == Block(m, d) {
      PayloadsApart(m, tiles, usage, c, d, k);
      BlockEqual(m, m', d);
    }
    StoredBlock(m, c, k, v);
  }

  /** Blocks of different live chunks share no word. */
  lemma LiveBlocksDisjoint(m: Words, usage: int, head: int, tiles: set<int>, fs: seq<int>, c: int, d: int)
    requires HeapOk(m, usage, head, tiles, fs) && Live(m, tiles, c) && Live(m, tiles, d) && c != d
    ensures End(m, c) <= d + HDR || End(m, d) <= c + HDR
    ensures |Block(m, c)| == Size(m, c) && |Block(m, d)| == Size(m, d)
  {
    ChunkFits(m, tiles, usage, c);
    ChunkFits(m, tiles, usage, d);
  }

  lemma PayloadsApart(m: Words, tiles: set<int>, usage: int, c: int, d: int, k: int)
    requires Tiling(m, tiles, usage) && c in tiles && d in tiles && c != d && c + HDR <= k < End(m, c)
    ensures !(d + HDR <= k < End(m, d))
  {
  }

  lemma StoredBlock(m: Words, c: int, k: int, v: int)
    requires 0 <= c && End(m, c) <= |m| && c + HDR <= k < End(m, c) && 0 <= Size(m, c)
    ensures 0 <= k - c - HDR < |Block(m, c)| && Block(m[k := v], c) == Block(m, c)[k - c - HDR := v]
  {
  }
}
