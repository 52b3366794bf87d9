/** Whole runs of a client of the heap, against an abstract store of blocks. */
module HeapRuns {
  import opened HeapModel
  import opened HeapMem

  /** What a client asks for; h is the index of one of its handles. */
  datatype Op =
    | Alloc(bytes: nat)
    | Free(h: nat)
    | Realloc(h: nat, bytes: nat)
    | Store(h: nat, i: nat, v: int)
    | Stats

  /** What happened, with the pointers involved. */
  datatype Event =
    | Given(bytes: nat, ret: int)
    | Freed(ptr: int)
    | Reallocated(ptr: int, bytes: nat, ret: int)
    | Stored(ptr: int, i: nat, v: int)
    | Nothing

  /** The abstract heap: the live blocks' words, by chunk. */
  type Blocks = map<int, Words>

  ghost function BlocksOf(m: Words, tiles: set<int>): Blocks {
    map c | c in tiles && Allocated(m, c) :: Block(m, c)
  }

  function ChunkAt(ptr: int): int { ptr - HDR }

  /** The abstract transition each event makes. */
  ghost predicate StepOk(e: Event, s: Blocks, s': Blocks) {
    match e
    case Given(bytes, ret) => AllocOk(bytes, ret, s, s')
    case Freed(ptr) => s' == (if ptr == NULL then s else s - {ChunkAt(ptr)})
    case Reallocated(ptr, bytes, ret) =>
      if ptr == NULL then AllocOk(bytes, ret, s, s')
      else if bytes == 0 then ret == NULL && s' == s - {ChunkAt(ptr)}
      else if ret == NULL then
        var c := ChunkAt(ptr);
        c in s && c in s' && s[c] <= s'[c] && s' == s[c := s'[c]]
      else
        var c, r := ChunkAt(ptr), ChunkAt(ret);
        && c in s && r in s' && (r == c || r !in s)
        && bytes <= 4 * |s'[r]|
        && (forall i :: 0 <= i < |s[c]| && 4 * i < bytes ==> s'[r][i] == s[c][i])
        && s' == (s - {c})[r := s'[r]]
    case Stored(ptr, i, v) =>
      var c := ChunkAt(ptr);
      c in s && i < |s[c]| && s' == s[c := s[c][i := v]]
    case Nothing => s' == s
  }

  ghost predicate AllocOk(bytes: nat, ret: int, s: Blocks, s': Blocks) {
    if ret == NULL then s' == s
    else var c := ChunkAt(ret); c !in s && c in s' && bytes <= 4 * |s'[c]| && s' == s[c := s'[c]]
  }

  /** A run of the abstract heap. */
  ghost predicate RunOk(es: seq<Event>, ss: seq<Blocks>) {
    |ss| == |es| + 1 && forall i :: 0 <= i < |es| ==> StepOk(es[i], ss[i], ss[i + 1])
  }

  /** Whether an event is an operation on the block of chunk c. */
  predicate Names(e: Event, c: int) {
    match e
    case Freed(ptr) => ptr != NULL && ChunkAt(ptr) == c
    case Reallocated(ptr, _, _) => ptr != NULL && ChunkAt(ptr) == c
    case Stored(ptr, _, _) => ChunkAt(ptr) == c
    case _ => false
  }

  /** Over any stretch of any run, a block that no operation names keeps its words. */
  lemma {:induction false} UnnamedBlockSurvives(es: seq<Event>, ss: seq<Blocks>, i: nat, j: nat, c: int)
    requires RunOk(es, ss) && i <= j <= |es| && c in ss[i]
    requires forall k :: i <= k < j ==> !Names(es[k], c)
    ensures c in ss[j] && ss[j][c] == ss[i][c]
    decreases j
  {
    if i < j {
      UnnamedBlockSurvives(es, ss, i, j - 1, c);
      assert StepOk(es[j - 1], ss[j - 1], ss[j]);
      UnnamedStep(es[j - 1], ss[j - 1], ss[j], c);
    }
  }

  lemma UnnamedStep(e: Event, s: Blocks, s': Blocks, c: int)
    requires StepOk(e, s, s') && c in s && !Names(e, c)
    ensures c in s' && s'[c] == s[c]
  {
  }

  // ---- From the heap to the abstract store -------------------------------------------

  lemma SameAll(m: Words, t: set<int>, m': Words, t': set<int>)
    requires SameBlocks(m, t, m', t', {})
    ensures BlocksOf(m', t') == BlocksOf(m, t)
  {
    hide Block;
    forall c ensures c in BlocksOf(m', t') <==> c in BlocksOf(m, t) {
      assert Live(m, t, c) <==> Live(m', t', c);
    }
  }

  lemma SameBut(m: Words, t: set<int>, m': Words, t': set<int>, c: int)
    requires SameBlocks(m, t, m', t', {c})
    ensures BlocksOf(m', t') - {c} == BlocksOf(m, t) - {c}
  {
    hide Block;
    forall d | d != c ensures d in BlocksOf(m', t') <==> d in BlocksOf(m, t) {
      assert Live(m, t, d) <==> Live(m', t', d);
    }
  }

  lemma SameBut2(m: Words, t: set<int>, m': Words, t': set<int>, c: int, r: int)
    requires SameBlocks(m, t, m', t', {c, r})
    ensures BlocksOf(m', t') - {c, r} == BlocksOf(m, t) - {c, r}
  {
    hide Block;
    forall d | d != c && d != r ensures d in BlocksOf(m', t') <==> d in BlocksOf(m, t) {
      assert Live(m, t, d) <==> Live(m', t', d);
    }
  }

  lemma PutBack(s: Blocks, s': Blocks, c: int)
    requires s' - {c} == s - {c}
    ensures c in s' ==> s' == s[c := s'[c]]
    ensures c !in s' ==> s' == s - {c}
  {
    assert forall d :: d != c ==> (d in s' <==> d in s' - {c});
    assert forall d :: d != c ==> (d in s <==> d in s - {c});
    assert forall d :: d != c && d in s' ==> s'[d] == (s' - {c})[d] == s[d];
  }

  // ---- A client ----------------------------------------------------------------------

  /** Handles that are not NULL point to live blocks, no two to the same. */
  ghost predicate HandlesOk(hs: seq<int>, s: Blocks) {
    && (forall h :: 0 <= h < |hs| && hs[h] != NULL ==> ChunkAt(hs[h]) in s)
    && (forall g, h :: 0 <= g < h < |hs| && hs[g] != NULL ==> hs[g] != hs[h])
  }

  lemma FreedHandles(hs: seq<int>, s: Blocks, h: nat)
    requires HandlesOk(hs, s) && h < |hs| && hs[h] != NULL
    ensures HandlesOk(hs[h := NULL], s - {ChunkAt(hs[h])})
  {
    var hs' := hs[h := NULL];
    forall g | 0 <= g < |hs'| && hs'[g] != NULL ensures ChunkAt(hs'[g]) in s - {ChunkAt(hs[h])} {
      assert g != h && hs[g] != hs[h];
    }
  }

  lemma MovedHandles(hs: seq<int>, s: Blocks, s': Blocks, h: nat, ret: int)
    requires HandlesOk(hs, s) && h < |hs| && hs[h] != NULL && ret != NULL
    requires ChunkAt(ret) == ChunkAt(hs[h]) || ChunkAt(ret) !in s
    requires ChunkAt(ret) in s' && s' == (s - {ChunkAt(hs[h])})[ChunkAt(ret) := s'[ChunkAt(ret)]]
    ensures HandlesOk(hs[h := ret], s')
  {
    var hs' := hs[h := ret];
    forall g | 0 <= g < |hs'| && hs'[g] != NULL ensures ChunkAt(hs'[g]) in s' {
      if g != h {
        assert hs[g] != hs[h];
        assert ChunkAt(hs[g]) in s - {ChunkAt(hs[h])};
      }
    }
    forall f, g | 0 <= f < g < |hs'| && hs'[f] != NULL ensures hs'[f] != hs'[g] {
      assert hs[f] != NULL || f == h;
    }
  }

  lemma AddedHandle(hs: seq<int>, s: Blocks, s': Blocks, ret: int)
    requires HandlesOk(hs, s) && (ret == NULL ==> s' == s)
    requires ret != NULL ==> ChunkAt(ret) !in s && ChunkAt(ret) in s' && s' == s[ChunkAt(ret) := s'[ChunkAt(ret)]]
    ensures HandlesOk(hs + [ret], s')
  {
  }

  lemma AllocStep(m: Words, t: set<int>, m': Words, t': set<int>, bytes: nat, ret: int)
    requires ret == NULL ==> SameBlocks(m, t, m', t', {})
    requires ret != NULL ==> var c := ChunkAt(ret);
      !Live(m, t, c) && Live(m', t', c) && bytes <= 4 * |Block(m', c)| && SameBlocks(m, t, m', t', {c})
    ensures AllocOk(bytes, ret, BlocksOf(m, t), BlocksOf(m', t'))
  {
    hide SameBlocks, Block;
    if ret == NULL {
      SameAll(m, t, m', t');
    } else {
      SameBut(m, t, m', t', ChunkAt(ret));
      PutBack(BlocksOf(m, t), BlocksOf(m', t'), ChunkAt(ret));
    }
  }

  lemma FreeStep(m: Words, t: set<int>, m': Words, t': set<int>, ptr: int)
    requires ptr == NULL ==> SameBlocks(m, t, m', t', {})
    requires ptr != NULL ==> !Live(m', t', ChunkAt(ptr)) && SameBlocks(m, t, m', t', {ChunkAt(ptr)})
    ensures StepOk(Freed(ptr), BlocksOf(m, t), BlocksOf(m', t'))
  {
    hide SameBlocks, Block;
    if ptr == NULL {
      SameAll(m, t, m', t');
    } else {
      SameBut(m, t, m', t', ChunkAt(ptr));
      PutBack(BlocksOf(m, t), BlocksOf(m', t'), ChunkAt(ptr));
    }
  }

  lemma ReallocStep(m: Words, t: set<int>, m': Words, t': set<int>, ptr: int, bytes: nat, ret: int)
    requires ptr != NULL && bytes > 0 && ChunkAt(ptr) != NULL && (ret != NULL ==> ChunkAt(ret) != NULL)
    requires Live(m, t, ChunkAt(ptr))
    requires Resized(m, t, m', t', ChunkAt(ptr), if ret == NULL then NULL else ChunkAt(ret), Align(bytes))
    ensures StepOk(Reallocated(ptr, bytes, ret), BlocksOf(m, t), BlocksOf(m', t'))
  {
    hide SameBlocks, Block, CommonPrefix;
    var c, s, s' := ChunkAt(ptr), BlocksOf(m, t), BlocksOf(m', t');
    if ret == NULL {
      SameBut(m, t, m', t', c);
      PutBack(s, s', c);
    } else {
      var r := ChunkAt(ret);
      SameBut2(m, t, m', t', c, r);
      Kept(s[c], s'[r], bytes);
      Moved(s, s', c, r);
    }
  }

  lemma Kept(b: Words, b': Words, bytes: nat)
    requires Align(bytes) <= |b'| && CommonPrefix(b, b', Align(bytes))
    ensures bytes <= 4 * |b'| && forall i :: 0 <= i < |b| && 4 * i < bytes ==> b'[i] == b[i]
  {
    var n := if |b| <= Align(bytes) then |b| else Align(bytes);
    forall i | 0 <= i < |b| && 4 * i < bytes ensures b'[i] == b[i] {
      assert b'[..n][i] == b[..n][i];
    }
  }

  lemma Moved(s: Blocks, s': Blocks, c: int, r: int)
    requires s' - {c, r} == s - {c, r} && r in s' && (r != c ==> r !in s && c !in s')
    ensures s' == (s - {c})[r := s'[r]]
  {
    forall d | d != c && d != r ensures (d in s' <==> d in s) && (d in s ==> s'[d] == s[d]) {
      assert d in s' <==> d in s' - {c, r};
      assert d in s <==> d in s - {c, r};
      if d in s {
        assert (s' - {c, r})[d] == (s - {c, r})[d];
      }
    }
  }

  lemma StoreStep(m: Words, t: set<int>, m': Words, t': set<int>, ptr: int, i: nat, v: int)
    requires Live(m, t, ChunkAt(ptr)) && Live(m', t', ChunkAt(ptr)) && i < |Block(m, ChunkAt(ptr))|
    requires SameBlocks(m, t, m', t', {ChunkAt(ptr)}) && Block(m', ChunkAt(ptr)) == Block(m, ChunkAt(ptr))[i := v]
    ensures StepOk(Stored(ptr, i, v), BlocksOf(m, t), BlocksOf(m', t'))
  {
    hide SameBlocks, Block;
    SameBut(m, t, m', t', ChunkAt(ptr));
    PutBack(BlocksOf(m, t), BlocksOf(m', t'), ChunkAt(ptr));
  }

  class Client {
    const heap: Heap
    var handles: seq<int>

    ghost function State(): Blocks
      reads heap, heap.mem
    {
      BlocksOf(heap.mem[..], heap.tiles)
    }

    ghost predicate Valid()
      reads this, heap, heap.mem
    {
      heap.Valid() && HandlesOk(handles, State())
    }

    constructor (arenaWords: nat)
      ensures Valid() && fresh(heap) && fresh(heap.mem) && State() == map[] && handles == []
    {
      heap := new Heap(arenaWords);
      handles := [];
    }

    predicate Usable(h: nat)
      reads this
    {
      h < |handles| && handles[h] != NULL
    }

    method Perform(op: Op) returns (ghost e: Event)
      requires Valid()
      modifies this`handles, heap, heap.mem
      ensures Valid() && StepOk(e, old(State()), State())
    {
      hide StepOk, SameBlocks, HandlesOk, HeapOk, BlocksOf, Resized;
      ghost var m, t, s, hs := heap.mem[..], heap.tiles, State(), handles;
      match op
      case Alloc(bytes) =>
        e := PerformAlloc(bytes);
      case Free(h) =>
        e := PerformFree(h);
      case Realloc(h, bytes) =>
        e := PerformRealloc(h, bytes);
      case Store(h, i, v) =>
        e := PerformStore(h, i, v);
      case Stats =>
        var stats := heap.HeapStats();
        SameAll(m, t, heap.mem[..], heap.tiles);
        NothingStep(s);
        e := Nothing;
    }

    method PerformAlloc(bytes: nat) returns (ghost e: Event)
      requires Valid()
      modifies this`handles, heap, heap.mem
      ensures Valid() && StepOk(e, old(State()), State())
    {
      hide SameBlocks, HandlesOk, HeapOk, BlocksOf, Block;
      ghost var m, t, s, hs := heap.mem[..], heap.tiles, State(), handles;
      var ret;
      ghost var found;
      ret, found := heap.HeapAlloc(bytes);
      AllocStep(m, t, heap.mem[..], heap.tiles, bytes, ret);
      AddedHandle(hs, s, State(), ret);
      handles := handles + [ret];
      e := Given(bytes, ret);
    }

    method PerformFree(h: nat) returns (ghost e: Event)
      requires Valid()
      modifies this`handles, heap, heap.mem
      ensures Valid() && StepOk(e, old(State()), State())
    {
      hide SameBlocks, HandlesOk, HeapOk, Block;
      ghost var m, t, s, hs := heap.mem[..], heap.tiles, State(), handles;
      if Usable(h) {
        HandleLive(hs, s, m, t, h);
        var ptr := handles[h];
        heap.HeapFree(ptr);
        FreeStep(m, t, heap.mem[..], heap.tiles, ptr);
        FreedHandles(hs, s, h);
        handles := handles[h := NULL];
        e := Freed(ptr);
      } else {
        e := Nothing;
      }
    }

    method PerformRealloc(h: nat, bytes: nat) returns (ghost e: Event)
      requires Valid()
      modifies this`handles, heap, heap.mem
      ensures Valid() && StepOk(e, old(State()), State())
    {
      hide SameBlocks, HandlesOk, HeapOk, Block, Resized, BlocksOf, CommonPrefix;
      ghost var m, t, s, hs := heap.mem[..], heap.tiles, State(), handles;
      if h >= |handles| {
        return Nothing;
      }
      var ptr := handles[h];
      if ptr == NULL {
        var ret := heap.HeapRealloc(ptr, bytes);
        AllocStep(m, t, heap.mem[..], heap.tiles, bytes, ret);
        AddedHandle(hs, s, State(), ret);
        handles := handles + [ret];
        return Reallocated(ptr, bytes, ret);
      }
      HandleLive(hs, s, m, t, h);
      LiveIsChunk(m, heap.usage, heap.freeList, t, heap.fs, ChunkAt(ptr));
      var ret := heap.HeapRealloc(ptr, bytes);
      e := Reallocated(ptr, bytes, ret);
      if bytes == 0 {
        FreeStep(m, t, heap.mem[..], heap.tiles, ptr);
        FreedHandles(hs, s, h);
        handles := handles[h := NULL];
      } else {
        ReallocStep(m, t, heap.mem[..], heap.tiles, ptr, bytes, ret);
        if ret != NULL {
          MovedHandles(hs, s, State(), h, ret);
          handles := handles[h := ret];
        } else {
          KeptHandles(hs, s, State(), ChunkAt(ptr));
        }
      }
    }

    method PerformStore(h: nat, i: nat, v: int) returns (ghost e: Event)
      requires Valid()
      modifies this`handles, heap, heap.mem
      ensures Valid() && StepOk(e, old(State()), State())
    {
      hide SameBlocks, HandlesOk, HeapOk, Block;
      ghost var m, t, s, hs := heap.mem[..], heap.tiles, State(), handles;
      if Usable(h) {
        var ptr := handles[h];
        HandleLive(hs, s, m, t, h);
        LiveIsChunk(m, heap.usage, heap.freeList, t, heap.fs, ChunkAt(ptr));
        if i < heap.mem[ptr - HDR + 2] {
          heap.Store(ptr, i, v);
          StoreStep(m, t, heap.mem[..], heap.tiles, ptr, i, v);
          KeptHandles(hs, s, State(), ChunkAt(ptr));
          return Stored(ptr, i, v);
        }
      }
      e := Nothing;
    }

    /** Any sequence of requests: every state is valid and the blocks evolve as the abstract store does. */
    method Run(ops: seq<Op>) returns (ghost es: seq<Event>, ghost ss: seq<Blocks>)
      requires Valid()
      modifies this`handles, heap, heap.mem
      ensures Valid() && |es| == |ops| && RunOk(es, ss)
      ensures ss[0] == old(State()) && ss[|ops|] == State()
    {
      hide StepOk, HandlesOk, HeapOk, BlocksOf;
      es, ss := [], [State()];
      for k := 0 to |ops|
        invariant Valid() && |es| == k && RunOk(es, ss)
        invariant ss[0] == old(State()) && ss[k] == State()
      {
        var e := Perform(ops[k]);
        es, ss := es + [e], ss + [State()];
      }
    }
  }

  lemma NothingStep(s: Blocks)
    ensures StepOk(Nothing, s, s)
  {
  }

  lemma HandleLive(hs: seq<int>, s: Blocks, m: Words, t: set<int>, h: nat)
    requires HandlesOk(hs, s) && h < |hs| && hs[h] != NULL && s == BlocksOf(m, t)
    ensures Live(m, t, ChunkAt(hs[h])) && ChunkAt(hs[h]) in s
  {
  }

  lemma LiveIsChunk(m: Words, usage: int, head: int, tiles: set<int>, fs: seq<int>, c: int)
    requires HeapOk(m, usage, head, tiles, fs) && c in tiles
    ensures 0 <= c <= |m| - HDR && |Block(m, c)| == Size(m, c)
  {
    NextInHeap(m, usage, head, tiles, fs, c);
    BlockLength(m, c);
  }

  lemma KeptHandles(hs: seq<int>, s: Blocks, s': Blocks, c: int)
    requires HandlesOk(hs, s) && c in s' && s' == s[c := s'[c]]
    ensures HandlesOk(hs, s')
  {
  }
}
