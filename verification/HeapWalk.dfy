/** The tiling as the code sees it: walking the arena with NEXT_CHUNK from its first chunk. */
module HeapWalk {
  import opened HeapModel

  /** The chunks met from offset a on. */
  ghost function Walk(m: Words, a: int, usage: int): seq<int>
    decreases usage - a
  {
    if a >= usage || Size(m, a) < 0 then [] else [a] + Walk(m, End(m, a), usage)
  }

  /** The walk from a ends exactly at the end of the used space. */
  ghost predicate Tiled(m: Words, a: int, usage: int)
    decreases usage - a
  {
    a == usage || (0 <= a < usage && 0 <= Size(m, a) && Tiled(m, End(m, a), usage))
  }

  /** The words that live blocks hold, from offset a on. */
  ghost function LiveWords(m: Words, a: int, usage: int): int
    decreases usage - a
  {
    if a >= usage || Size(m, a) < 0 then 0
    else (if Allocated(m, a) then Size(m, a) else 0) + LiveWords(m, End(m, a), usage)
  }

  ghost predicate Lists(s: seq<int>, tiles: set<int>, a: int) {
    && (forall c :: c in s <==> c in tiles && c >= a)
    && (forall i, j :: 0 <= i < j < |s| ==> s[i] < s[j])
  }

  lemma {:induction false} TilingWalks(m: Words, tiles: set<int>, usage: int, a: int)
    requires Tiling(m, tiles, usage) && (a == usage || a in tiles)
    ensures Tiled(m, a, usage) && Lists(Walk(m, a, usage), tiles, a)
    decreases usage - a
  {
    if a == usage {
      TilesBelow(m, tiles, usage);
    } else {
      TileStep(m, tiles, usage, a);
      var e := End(m, a);
      TilingWalks(m, tiles, usage, e);
      var s := Walk(m, e, usage);
      assert Walk(m, a, usage) == [a] + s;
      forall c ensures c in [a] + s <==> c in tiles && c >= a {
        if c in tiles && c > a {
          assert c >= e;
        }
      }
      forall i, j | 0 <= i < j < |[a] + s| ensures ([a] + s)[i] < ([a] + s)[j] {
        if i == 0 {
          assert s[j - 1] in s;
        }
      }
    }
  }

  lemma TilesBelow(m: Words, tiles: set<int>, usage: int)
    requires Tiling(m, tiles, usage)
    ensures forall c :: c in tiles ==> 0 <= c < usage
  {
  }

  lemma TileStep(m: Words, tiles: set<int>, usage: int, a: int)
    requires Tiling(m, tiles, usage) && a in tiles
    ensures 0 <= a < End(m, a) <= usage && 0 <= Size(m, a) && (End(m, a) == usage || End(m, a) in tiles)
    ensures forall c :: c in tiles && c > a ==> c >= End(m, a)
  {
    assert Abuts(m, tiles, usage, a);
  }

  ghost function Elements(s: seq<int>): set<int> {
    set c | c in s
  }

  lemma {:induction false} TiledBounds(m: Words, a: int, usage: int)
    requires Tiled(m, a, usage)
    ensures a <= usage
    ensures forall c :: c in Walk(m, a, usage) ==> a <= c && 0 <= c && 0 <= Size(m, c) && End(m, c) <= usage
    ensures forall c :: c in Walk(m, a, usage) ==> End(m, c) == usage || End(m, c) in Walk(m, a, usage)
    ensures forall c, d :: c in Walk(m, a, usage) && d in Walk(m, a, usage) && c < d ==> End(m, c) <= d
    ensures a < usage ==> a in Walk(m, a, usage)
    decreases usage - a
  {
    if a != usage {
      var e := End(m, a);
      TiledBounds(m, e, usage);
      var s := Walk(m, e, usage);
      assert Walk(m, a, usage) == [a] + s;
      assert forall c :: c in [a] + s <==> c == a || c in s;
      assert e < usage ==> e in s;
    }
  }

  /** Lying end to end is the same as being what a walk from the first chunk meets. */
  lemma TilingIffWalk(m: Words, tiles: set<int>, usage: int)
    requires 0 <= usage <= |m|
    ensures Tiling(m, tiles, usage) <==> Tiled(m, 0, usage) && tiles == Elements(Walk(m, 0, usage))
  {
    if Tiling(m, tiles, usage) {
      TilingWalks(m, tiles, usage, 0);
      TilesBelow(m, tiles, usage);
      ListsElements(Walk(m, 0, usage), tiles);
    }
    if Tiled(m, 0, usage) && tiles == Elements(Walk(m, 0, usage)) {
      WalkTiles(m, tiles, usage);
    }
  }

  lemma ListsElements(s: seq<int>, tiles: set<int>)
    requires Lists(s, tiles, 0) && forall c :: c in tiles ==> 0 <= c
    ensures tiles == Elements(s)
  {
    forall c ensures c in tiles <==> c in Elements(s) {
      assert c in s <==> c in tiles && c >= 0;
    }
  }

  lemma WalkTiles(m: Words, tiles: set<int>, usage: int)
    requires 0 <= usage <= |m| && Tiled(m, 0, usage) && tiles == Elements(Walk(m, 0, usage))
    ensures Tiling(m, tiles, usage)
  {
    hide Size, Walk, Tiled;
    var w := Walk(m, 0, usage);
    TiledBounds(m, 0, usage);
    forall c | c in tiles
      ensures 0 <= c && 0 <= Size(m, c) && End(m, c) <= usage && Abuts(m, tiles, usage, c)
    {
      assert c in w;
    }
    forall c, d | c in tiles && d in tiles && c < d ensures End(m, c) <= d {
      assert c in w && d in w;
    }
  }

  // ---- Counting across coalescing ----------------------------------------------------

  /** Coalescing the free chunk c does not change how many words are live from c on. */
  lemma CoalescedLiveWords(m: Words, t: set<int>, m': Words, t': set<int>, usage: int, c: int)
    requires Tiling(m, t, usage) && Tiling(m', t', usage) && Coalesced(m, t, m', t', c) && !Allocated(m, c)
    ensures LiveWords(m', c, usage) == LiveWords(m, c, usage)
  {
    var e := End(m', c);
    TileStep(m, t, usage, c);
    TileStep(m', t', usage, c);
    FreeStretch(m, t, m', t', usage, c, End(m, c));
    SameRest(m, t, m', t', usage, c, e);
  }

  lemma {:induction false} FreeStretch(m: Words, t: set<int>, m': Words, t': set<int>, usage: int, c: int, x: int)
    requires Tiling(m, t, usage) && Tiling(m', t', usage) && Coalesced(m, t, m', t', c)
    requires (x == usage || x in t) && c < x <= End(m', c) <= usage
    ensures LiveWords(m, x, usage) == LiveWords(m, End(m', c), usage)
    decreases usage - x
  {
    if x < End(m', c) {
      TileStep(m, t, usage, x);
      TileStep(m', t', usage, c);
      assert x !in t';
      var e := End(m', c);
      assert e < usage ==> e in t;
      FreeStretch(m, t, m', t', usage, c, End(m, x));
    }
  }

  lemma {:induction false} SameRest(m: Words, t: set<int>, m': Words, t': set<int>, usage: int, c: int, x: int)
    requires Tiling(m, t, usage) && Tiling(m', t', usage) && Coalesced(m, t, m', t', c)
    requires (x == usage || x in t') && c < x
    ensures LiveWords(m', x, usage) == LiveWords(m, x, usage)
    decreases usage - x
  {
    if x < usage {
      TileStep(m', t', usage, x);
      SameRest(m, t, m', t', usage, c, End(m', x));
    }
  }
}
