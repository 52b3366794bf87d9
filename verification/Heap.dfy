/** The heap allocator: chunk list surgery, splitting, coalescing, and the four operations. */
module HeapMem {
  import opened HeapModel
  import opened HeapWalk

  /** CHUNK_SEARCH_MAX */
  const SEARCH_MAX: int := 16

  /** ALIGN, from bytes to 4-byte words. */
  function Align(bytes: nat): (w: nat)
    ensures bytes <= 4 * w < bytes + 4
  {
    (bytes + 3) / 4
  }

  function ClearAllocated(flags: int): int { flags - flags % 2 }
  function SetAllocated(flags: int): int { flags - flags % 2 + 1 }

  /** The whole state of the heap at some moment. */
  datatype Snapshot = Snapshot(mem: Words, usage: int, head: int, tiles: set<int>, fs: seq<int>)

  /** found is a good heap with the same used space and live blocks as h; and if its list was short enough to be visited
      as a whole, no free chunk is followed by another. */
  ghost predicate Defragmented(h: Snapshot, found: Snapshot) {
    && HeapOk(found.mem, found.usage, found.head, found.tiles, found.fs)
    && |found.mem| == |h.mem| && found.usage == h.usage
    && SameBlocks(h.mem, h.tiles, found.mem, found.tiles, {})
    && (|h.fs| <= SEARCH_MAX ==> AllSettled(found.mem, found.tiles, found.usage, found.fs))
  }

  class Heap {
    const mem: array<int>
    var usage: int
    var freeList: int
    ghost var tiles: set<int>
    ghost var fs: seq<int>

    ghost predicate Valid()
      reads this, mem
    {
      HeapOk(mem[..], usage, freeList, tiles, fs)
    }

    ghost function Now(): Snapshot
      reads this, mem
    {
      Snapshot(mem[..], usage, freeList, tiles, fs)
    }

    constructor (arenaWords: nat)
      ensures Valid() && fresh(mem) && mem.Length == arenaWords && tiles == {}
    {
      mem := new int[arenaWords];
      usage, freeList := 0, NULL;
      tiles, fs := {}, [];
    }

    // ---- Chunk list surgery ----------------------------------------------------------

    method FreeChunk(chunk: int)
      requires ListState(mem[..], freeList, fs, tiles) && chunk in tiles && chunk !in fs
      modifies this`usage, this`freeList, this`fs, mem
      ensures ListState(mem[..], freeList, fs, tiles)
      ensures OnlyLinks(old(mem[..]), mem[..], tiles, chunk) && !Allocated(mem[..], chunk)
      ensures if End(old(mem[..]), chunk) == old(usage) then usage == chunk && fs == old(fs)
              else usage == old(usage) && fs == [chunk] + old(fs)
    {
      ghost var m := mem[..];
      var flags := ClearAllocated(mem[chunk + 3]);
      mem[chunk + 3] := flags;
      if chunk + HDR + mem[chunk + 2] == usage {
        usage := usage - (HDR + mem[chunk + 2]);
        assert mem[..] == m[chunk + 3 := flags];
        FlagsFrame(m, freeList, fs, tiles, chunk, flags);
      } else {
        PushKeeps(m, freeList, fs, tiles, chunk, flags);
        mem[chunk] := NULL;
        mem[chunk + 1] := freeList;
        if freeList != NULL {
          mem[freeList] := chunk;
        }
        assert mem[..] == Pushed(m, freeList, chunk, flags);
        freeList := chunk;
        fs := [chunk] + fs;
      }
    }

    method AllocateChunk(chunk: int)
      requires ListState(mem[..], freeList, fs, tiles) && chunk in fs
      modifies this`freeList, this`fs, mem
      ensures ListState(mem[..], freeList, fs, tiles)
      ensures OnlyLinks(old(mem[..]), mem[..], tiles, chunk) && Allocated(mem[..], chunk)
      ensures forall f :: f in fs <==> f in old(fs) && f != chunk
      ensures Thinned(old(fs), fs)
    {
      ghost var m := mem[..];
      ghost var i :| 0 <= i < |fs| && fs[i] == chunk;
      NeighboursInList(m, freeList, fs, tiles, i);
      var flags := SetAllocated(mem[chunk + 3]);
      UnlinkKeeps(m, freeList, fs, tiles, i, flags);
      mem[chunk + 3] := flags;
      ghost var head := freeList;
      if chunk == freeList {
        freeList := mem[chunk + 1];
        if freeList != NULL {
          mem[freeList] := NULL;
        }
      } else {
        mem[mem[chunk] + 1] := mem[chunk + 1];
      }
      if mem[chunk + 1] != NULL {
        mem[mem[chunk + 1]] := mem[chunk];
      }
      assert mem[..] == Unlinked(m, head, chunk, flags);
      RemoveAtMembers(fs, i);
      RemoveAtThins(fs, i);
      fs := RemoveAt(fs, i);
    }

    // ---- Coalescing ------------------------------------------------------------------

    /** The body of coalesce_chunks' loop. */
    method CoalesceNext(chunk: int, next: int)
      requires Valid() && chunk in tiles && next in tiles && End(mem[..], chunk) == next
      requires !Allocated(mem[..], next)
      modifies this`freeList, this`fs, this`tiles, mem
      ensures Valid()
      ensures Coalesced(old(mem[..]), old(tiles), mem[..], tiles, chunk)
      ensures 0 <= next <= mem.Length - HDR && End(mem[..], chunk) == next + HDR + mem[next + 2]
      ensures Thinned(old(fs), fs)
    {
      hide Coalesced, Thinned;
      ghost var m, head, fs1 := mem[..], freeList, fs;
      NextIsTile(m, tiles, usage, chunk);
      NextIsTile(m, tiles, usage, next);
      mem[chunk + 2] := mem[chunk + 2] + (HDR + mem[next + 2]);
      ghost var m1 := mem[..];
      SizeOnlyFrame(m, m1, freeList, fs, tiles, chunk);
      AllocateChunk(next);
      CoalesceStep(m, m1, mem[..], usage, head, fs1, freeList, fs, tiles, chunk, next);
      tiles := tiles - {next};
    }

    method CoalesceChunks(chunk: int)
      requires Valid() && chunk in tiles
      modifies this`freeList, this`fs, this`tiles, mem
      ensures Valid()
      ensures Coalesced(old(mem[..]), old(tiles), mem[..], tiles, chunk)
      ensures Settled(mem[..], tiles, usage, chunk)
      ensures Thinned(old(fs), fs)
    {
      hide HeapOk, Thinned, Block;
      ghost var m0, tiles0, fs0 := mem[..], tiles, fs;
      CoalescedRefl(m0, tiles0, chunk);
      ThinnedRefl(fs);
      NextInHeap(mem[..], usage, freeList, tiles, fs, chunk);
      var next := chunk + HDR + mem[chunk + 2];
      while next < usage && mem[next + 3] % 2 == 0
        invariant Valid() && chunk in tiles && next == End(mem[..], chunk) <= usage
        invariant next < usage ==> next in tiles && 0 <= next <= mem.Length - HDR
        invariant Coalesced(m0, tiles0, mem[..], tiles, chunk)
        invariant Thinned(fs0, fs)
        decreases usage - next
      {
        ghost var m, tiles1, fs1 := mem[..], tiles, fs;
        NextInHeap(m, usage, freeList, tiles, fs, next);
        CoalesceNext(chunk, next);
        ThinnedTrans(fs0, fs1, fs);
        CoalescedTrans(m0, tiles0, m, tiles1, mem[..], tiles, chunk);
        next := next + HDR + mem[next + 2];
        NextInHeap(mem[..], usage, freeList, tiles, fs, chunk);
      }
    }

    /** defrag_chunks: visits the list from its head, at most SEARCH_MAX chunks of it; the first j have been visited. */
    method DefragChunks() returns (ghost j: nat)
      requires Valid()
      modifies this`freeList, this`fs, this`tiles, mem
      ensures Valid()
      ensures SameBlocks(old(mem[..]), old(tiles), mem[..], tiles, {})
      ensures j <= |fs| && AllSettled(mem[..], tiles, usage, fs[..j])
      ensures j == |fs| || |fs| - j <= |old(fs)| - SEARCH_MAX
    {
      hide HeapOk, Coalesced, SameBlocks, Thinned, AllSettled;
      ghost var m0, tiles0, fs0 := mem[..], tiles, fs;
      SameBlocksRefl(m0, tiles0);
      NoneSettled(m0, tiles, usage, fs);
      var i := SEARCH_MAX;
      var chunk := freeList;
      j := 0;
      ListHeadAt(m0, usage, freeList, tiles, fs);
      while chunk != NULL
        invariant Valid() && 0 <= i <= SEARCH_MAX
        invariant if chunk == NULL then j == |fs| else j < |fs| && chunk == fs[j]
        invariant AllSettled(mem[..], tiles, usage, fs[..j])
        invariant |fs| - j <= |fs0| - (SEARCH_MAX - i)
        invariant SameBlocks(m0, tiles0, mem[..], tiles, {})
        decreases i
      {
        if i == 0 {
          break;
        }
        i := i - 1;
        ghost var m, tiles1, fs1, head := mem[..], tiles, fs, freeList;
        ListedIsFree(m, usage, freeList, tiles, fs, chunk);
        CoalesceChunks(chunk);
        CoalescedFree(m, tiles1, mem[..], usage, freeList, tiles, fs, chunk);
        SameBlocksTrans(m0, tiles0, m, tiles1, mem[..], tiles, {});
        j := VisitedSettled(m, tiles1, fs1, mem[..], tiles, fs, usage, head, freeList, chunk, j);
        ListAt(mem[..], usage, freeList, tiles, fs, j - 1);
        chunk := mem[chunk + 1];
      }
    }

    /** The search of get_free_chunk: the smallest examined chunk that is large enough. */
    method FindBest(size: int) returns (best: int)
      requires Valid()
      ensures BestFit(mem[..], Examined(fs), size, best)
      ensures best != NULL ==> best in fs
    {
      hide HeapOk, BestFit;
      best := NULL;
      var i := SEARCH_MAX;
      var chunk := freeList;
      ghost var j, m := 0, mem[..];
      ListHeadAt(m, usage, freeList, tiles, fs);
      NoneYet(m, fs, size);
      while chunk != NULL
        invariant 0 <= j <= |fs| && j == SEARCH_MAX - i && i >= 0
        invariant if chunk == NULL then j == |fs| else j < |fs| && chunk == fs[j]
        invariant BestFit(m, fs[..j], size, best)
        decreases i
      {
        if i == 0 {
          break;
        }
        i := i - 1;
        ListAt(m, usage, freeList, tiles, fs, j);
        BestInHeap(m, usage, freeList, tiles, fs, j, size, best);
        BestExtends(m, fs, j, size, best);
        if size <= mem[chunk + 2] {
          if best == NULL || mem[chunk + 2] < mem[best + 2] {
            best := chunk;
          }
          if mem[best + 2] == size {
            PerfectFit(m, fs, j + 1, size, best);
            return;
          }
        }
        chunk := mem[chunk + 1];
        j := j + 1;
      }
      BestInHeap(m, usage, freeList, tiles, fs, j, size, best);
      assert fs[..j] == Examined(fs);
    }

    // ---- Allocation ------------------------------------------------------------------

    method SplitChunk(chunk: int, offset: nat)
      requires Valid() && Live(mem[..], tiles, chunk)
      modifies this`usage, this`freeList, this`fs, this`tiles, mem
      ensures Valid() && Live(mem[..], tiles, chunk)
      ensures SameBlocks(old(mem[..]), old(tiles), mem[..], tiles, {chunk})
      ensures |Block(mem[..], chunk)| == Size(mem[..], chunk)
      ensures Size(mem[..], chunk) ==
        if offset + HDR < Size(old(mem[..]), chunk) then offset else Size(old(mem[..]), chunk)
      ensures Block(mem[..], chunk) <= Block(old(mem[..]), chunk)
    {
      hide HeapOk, Tiling, ListState, Block, SameBlocks, Allocated;
      ghost var m := mem[..];
      NextInHeap(m, usage, freeList, tiles, fs, chunk);
      if offset + HDR < mem[chunk + 2] {
        ghost var head, fs1, tiles1, usage1 := freeList, fs, tiles, usage;
        SplitHeader(m, usage, freeList, tiles, fs, chunk, offset);
        var rest := chunk + HDR + offset;
        mem[rest + 2] := mem[chunk + 2] - HDR - offset;
        mem[rest + 3] := 0;
        tiles := tiles + {rest};
        ghost var m1 := mem[..];
        assert m1 == m[rest + 2 := Size(m, chunk) - HDR - offset][rest + 3 := 0];
        hide OnlyLinks, OnlyHeaders, SizesSame;
        FreeChunk(rest);
        ghost var m2 := mem[..];
        SplitStep(m, m1, m2, usage1, usage, head, freeList, tiles1, fs1, fs, chunk, offset);
        mem[chunk + 2] := offset;
        mem[chunk + 1] := NULL;
        mem[chunk] := NULL;
        assert mem[..] == Cut(m2, chunk, offset);
        tiles := if usage == rest then tiles1 else tiles;
        NextInHeap(mem[..], usage, freeList, tiles, fs, chunk);
      } else {
        SameBlocksRefl(m, tiles);
        SameBlocksMore(m, tiles, m, tiles, {chunk});
      }
      BlockLength(mem[..], chunk);
    }

    /** found is the heap after defragmentation, in which best is the best fit. */
    method GetFreeChunk(size: nat) returns (best: int, ghost found: Snapshot)
      requires Valid()
      modifies this`usage, this`freeList, this`fs, this`tiles, mem
      ensures Valid()
      ensures Defragmented(old(Now()), found) && BestFit(found.mem, Examined(found.fs), size, best)
      ensures best == NULL ==> Now() == found
      ensures best != NULL ==>
        && !Live(old(mem[..]), old(tiles), best) && Live(mem[..], tiles, best)
        && size <= |Block(mem[..], best)| && best < found.usage
        && SameBlocks(old(mem[..]), old(tiles), mem[..], tiles, {best})
    {
      hide HeapOk, Block, SameBlocks, BestFit, OnlyLinks, ListState, AllSettled;
      ghost var m0, t0, fs0 := mem[..], tiles, fs;
      ghost var settled := DefragChunks();
      found := Now();
      assert fs[..|fs|] == fs;
      ghost var m1, t1, head, fs1 := mem[..], tiles, freeList, fs;
      best := FindBest(size);
      if best != NULL {
        HeapIsListed(m1, usage, head, t1, fs1);
        BestIsLarge(m1, fs, size, best);
        ListedIsFree(m1, usage, head, t1, fs1, best);
        NextInHeap(m1, usage, head, t1, fs1, best);
        AllocateChunk(best);
        ghost var m2 := mem[..];
        AllocateState(m1, m2, usage, head, fs1, freeList, fs, t1, best);
        SplitChunk(best, size);
        SameBlocksMore(m0, t0, m1, t1, {best});
        SameBlocksTrans(m0, t0, m1, t1, m2, t1, {best});
        SameBlocksTrans(m0, t0, m2, t1, mem[..], tiles, {best});
        SameLive(m0, t0, m1, t1, best);
      }
    }

    /** extend_space: the old end of the used space, or NULL when the arena is too small. */
    method ExtendSpace(size: nat) returns (old_usage: int)
      modifies this`usage
      ensures if old(usage) + size > mem.Length then old_usage == NULL && usage == old(usage)
              else old_usage == old(usage) && usage == old(usage) + size
    {
      if usage + size > mem.Length {
        return NULL;
      }
      old_usage := usage;
      usage := usage + size;
    }

    /** GET_PTR and GET_CHUNK: a block's pointer is just past its chunk's header. */
    static function PtrOf(chunk: int): int { chunk + HDR }
    static function ChunkOf(ptr: int): int { ptr - HDR }

    /** The block returned is the best fit in found, the heap after defragmentation; it is a new chunk at the end of the
        used space only if nothing examined there fits, and it is NULL only if the arena has no room for that either. */
    method HeapAlloc(bytes: nat) returns (ptr: int, ghost found: Snapshot)
      requires Valid()
      modifies this`usage, this`freeList, this`fs, this`tiles, mem
      ensures Valid()
      ensures Defragmented(old(Now()), found)
      ensures BestFit(found.mem, Examined(found.fs), Align(bytes),
                      if ptr == NULL || ChunkOf(ptr) == found.usage then NULL else ChunkOf(ptr))
      ensures ptr == NULL ==> SameBlocks(old(mem[..]), old(tiles), mem[..], tiles, {})
      ensures ptr == NULL ==> NoRoom(mem[..], usage, fs, Align(bytes))
      ensures ptr != NULL ==> var c := ChunkOf(ptr);
        && !Live(old(mem[..]), old(tiles), c) && Live(mem[..], tiles, c)
        && Align(bytes) <= |Block(mem[..], c)| && bytes <= 4 * |Block(mem[..], c)|
        && SameBlocks(old(mem[..]), old(tiles), mem[..], tiles, {c})
    {
      hide HeapOk, Block, SameBlocks, BestFit;
      ghost var m0, t0 := mem[..], tiles;
      var size := Align(bytes);
      var chunk;
      chunk, found := GetFreeChunk(size);
      if chunk == NULL {
        ghost var m1, t1, usage1 := mem[..], tiles, usage;
        UsageFits(m1, usage, freeList, tiles, fs);
        chunk := ExtendSpace(HDR + size);
        if chunk == NULL {
          ptr := NULL;
          return;
        }
        mem[chunk + 2] := size;
        mem[chunk + 3] := 1;
        assert mem[..] == m1[chunk + 2 := size][chunk + 3 := 1];
        tiles := tiles + {chunk};
        ExtendState(m1, mem[..], usage1, freeList, t1, fs, size);
        NextInHeap(mem[..], usage, freeList, tiles, fs, chunk);
        BlockLength(mem[..], chunk);
        SameBlocksMore(m0, t0, m1, t1, {chunk});
        SameBlocksTrans(m0, t0, m1, t1, mem[..], tiles, {chunk});
        SameLive(m0, t0, m1, t1, chunk);
      } else {
        NextInHeap(mem[..], usage, freeList, tiles, fs, chunk);
        ghost var m1 := mem[..];
        FlagsState(m1, usage, freeList, tiles, fs, chunk);
        mem[chunk + 3] := 1;
        assert mem[..] == m1[chunk + 3 := 1];
        SameBlocksMore(m1, tiles, mem[..], tiles, {chunk});
        SameBlocksTrans(m0, t0, m1, tiles, mem[..], tiles, {chunk});
      }
      ptr := PtrOf(chunk);
    }

    // ---- Freeing ---------------------------------------------------------------------

    /** free_chunk applied to a live chunk of a whole heap. */
    method FreeLive(chunk: int)
      requires Valid() && Live(mem[..], tiles, chunk)
      modifies this`usage, this`freeList, this`fs, this`tiles, mem
      ensures Valid() && !Live(mem[..], tiles, chunk)
      ensures SameBlocks(old(mem[..]), old(tiles), mem[..], tiles, {chunk})
    {
      hide Tiling, ListState, Block, SameBlocks, OnlyLinks;
      ghost var m, usage1, head, fs1 := mem[..], usage, freeList, fs;
      FreeChunk(chunk);
      FreeState(m, mem[..], usage1, usage, head, fs1, freeList, fs, tiles, chunk);
      tiles := if End(m, chunk) == usage1 then tiles - {chunk} else tiles;
    }

    method HeapFree(ptr: int)
      requires Valid() && (ptr != NULL ==> Live(mem[..], tiles, ChunkOf(ptr)))
      modifies this`usage, this`freeList, this`fs, this`tiles, mem
      ensures Valid()
      ensures ptr == NULL ==> SameBlocks(old(mem[..]), old(tiles), mem[..], tiles, {})
      ensures ptr != NULL ==>
        && !Live(mem[..], tiles, ChunkOf(ptr))
        && SameBlocks(old(mem[..]), old(tiles), mem[..], tiles, {ChunkOf(ptr)})
    {
      if ptr != NULL {
        FreeLive(ChunkOf(ptr));
      }
    }

    // ---- The owner's accesses --------------------------------------------------------

    /** A block's owner stores a word. */
    method Store(ptr: int, i: nat, v: int)
      requires Valid() && Live(mem[..], tiles, ChunkOf(ptr)) && i < |Block(mem[..], ChunkOf(ptr))|
      modifies mem
      ensures Valid() && Live(mem[..], tiles, ChunkOf(ptr))
      ensures SameBlocks(old(mem[..]), tiles, mem[..], tiles, {ChunkOf(ptr)})
      ensures Block(mem[..], ChunkOf(ptr)) == Block(old(mem[..]), ChunkOf(ptr))[i := v]
    {
      hide HeapOk, SameBlocks;
      ghost var m := mem[..];
      StoreState(m, usage, freeList, tiles, fs, ChunkOf(ptr), ptr + i, v);
      mem[ptr + i] := v;
      assert mem[..] == m[ptr + i := v];
    }

    /** memcpy between two live blocks. */
    method CopyBlock(newptr: int, ptr: int, n: nat)
      requires Valid() && Live(mem[..], tiles, ChunkOf(ptr)) && Live(mem[..], tiles, ChunkOf(newptr)) && ptr != newptr
      requires n == |Block(mem[..], ChunkOf(ptr))| <= |Block(mem[..], ChunkOf(newptr))|
      modifies mem
      ensures Valid() && Live(mem[..], tiles, ChunkOf(newptr))
      ensures SameBlocks(old(mem[..]), tiles, mem[..], tiles, {ChunkOf(newptr)})
      ensures |Block(mem[..], ChunkOf(newptr))| == |Block(old(mem[..]), ChunkOf(newptr))|
      ensures Block(old(mem[..]), ChunkOf(ptr)) <= Block(mem[..], ChunkOf(newptr))
    {
      hide HeapOk, SameBlocks, Block;
      ghost var m0, c, d := mem[..], ChunkOf(ptr), ChunkOf(newptr);
      SameBlocksRefl(m0, tiles);
      SameBlocksMore(m0, tiles, m0, tiles, {d});
      var i := 0;
      while i < n
        invariant 0 <= i <= n && Valid() && Live(mem[..], tiles, d) && Live(mem[..], tiles, c)
        invariant SameBlocks(m0, tiles, mem[..], tiles, {d}) && Block(mem[..], c) == Block(m0, c)
        invariant |Block(mem[..], d)| == |Block(m0, d)|
        invariant Block(mem[..], d)[..i] == Block(m0, c)[..i]
      {
        ghost var m := mem[..];
        BlockWord(m, usage, freeList, tiles, fs, c, i);
        Store(newptr, i, mem[ptr + i]);
        SameOther(m, tiles, mem[..], tiles, d, c);
        SameBlocksTrans(m0, tiles, m, tiles, mem[..], tiles, {d});
        i := i + 1;
      }
    }

    // ---- Reallocation ----------------------------------------------------------------

    /** The in-place attempts of heapmem_realloc: shrink, extend the last chunk, or coalesce. */
    method ResizeInPlace(chunk: int, size: nat) returns (done: bool)
      requires Valid() && Live(mem[..], tiles, chunk)
      modifies this`usage, this`freeList, this`fs, this`tiles, mem
      ensures Valid()
      ensures done ==> Resized(old(mem[..]), old(tiles), mem[..], tiles, chunk, chunk, size)
      ensures !done ==> Resized(old(mem[..]), old(tiles), mem[..], tiles, chunk, NULL, size)
      ensures !done ==> |Block(old(mem[..]), chunk)| <= |Block(mem[..], chunk)| < size
    {
      hide Block, SameBlocks, Tiling, ListState, Coalesced;
      ghost var m, t := mem[..], tiles;
      NextInHeap(m, usage, freeList, tiles, fs, chunk);
      BlockLength(m, chunk);
      var adj := size - mem[chunk + 2];
      if adj <= 0 {
        SplitChunk(chunk, size);
        ShrinkResized(m, t, mem[..], tiles, chunk, size);
        return true;
      }
      if chunk + HDR + mem[chunk + 2] == usage {
        ghost var usage1 := usage;
        var p := ExtendSpace(adj);
        if p == NULL {
          SameBlocksRefl(m, t);
          SameBlocksMore(m, t, m, t, {chunk});
          return false;
        }
        mem[chunk + 2] := size;
        assert mem[..] == m[chunk + 2 := Size(m, chunk) + adj];
        GrowState(m, mem[..], usage1, freeList, tiles, fs, chunk, adj);
        NextInHeap(mem[..], usage, freeList, tiles, fs, chunk);
        BlockLength(mem[..], chunk);
        GrowResized(m, t, mem[..], tiles, chunk, size);
        return true;
      } else {
        CoalesceChunks(chunk);
        ghost var m1, t1 := mem[..], tiles;
        CoalescedGrows(m, t, m1, t1, chunk);
        NextInHeap(m1, usage, freeList, tiles, fs, chunk);
        BlockLength(m1, chunk);
        if mem[chunk + 2] >= size {
          SplitChunk(chunk, size);
          SameBlocksTrans(m, t, m1, t1, mem[..], tiles, {chunk});
          ShrinkAfterGrow(m, t, m1, mem[..], tiles, chunk, size);
          return true;
        }
        return false;
      }
    }

    method HeapRealloc(ptr: int, bytes: nat) returns (newptr: int)
      requires Valid() && (ptr != NULL ==> Live(mem[..], tiles, ChunkOf(ptr)))
      modifies this`usage, this`freeList, this`fs, this`tiles, mem
      ensures Valid()
      ensures ptr == NULL && newptr == NULL ==> SameBlocks(old(mem[..]), old(tiles), mem[..], tiles, {})
      ensures ptr == NULL && newptr != NULL ==> var c := ChunkOf(newptr);
        && !Live(old(mem[..]), old(tiles), c) && Live(mem[..], tiles, c)
        && Align(bytes) <= |Block(mem[..], c)| && bytes <= 4 * |Block(mem[..], c)|
        && SameBlocks(old(mem[..]), old(tiles), mem[..], tiles, {c})
      ensures ptr != NULL && bytes == 0 ==>
        && newptr == NULL && !Live(mem[..], tiles, ChunkOf(ptr))
        && SameBlocks(old(mem[..]), old(tiles), mem[..], tiles, {ChunkOf(ptr)})
      ensures ptr != NULL && bytes > 0 ==>
        Resized(old(mem[..]), old(tiles), mem[..], tiles, ChunkOf(ptr),
                if newptr == NULL then NULL else ChunkOf(newptr), Align(bytes))
      ensures newptr != NULL ==> bytes <= 4 * |Block(mem[..], ChunkOf(newptr))|
      ensures newptr == NULL && (ptr == NULL || bytes > 0) ==> NoRoom(mem[..], usage, fs, Align(bytes))
      ensures newptr == NULL && ptr != NULL && bytes > 0 ==> |Block(old(mem[..]), ChunkOf(ptr))| < Align(bytes)
      ensures newptr == NULL || newptr >= HDR
    {
      hide Block, SameBlocks, HeapOk, NoRoom;
      if ptr == NULL {
        ghost var found;
        newptr, found := HeapAlloc(bytes);
        if newptr != NULL {
          NextInHeap(mem[..], usage, freeList, tiles, fs, ChunkOf(newptr));
        }
        return;
      } else if bytes == 0 {
        HeapFree(ptr);
        return NULL;
      }
      ghost var m, t := mem[..], tiles;
      var chunk := ChunkOf(ptr);
      NextInHeap(m, usage, freeList, tiles, fs, chunk);
      var size := Align(bytes);
      var done := ResizeInPlace(chunk, size);
      if done {
        return ptr;
      }
      ghost var m1, t1 := mem[..], tiles;
      ghost var found;
      newptr, found := HeapAlloc(4 * size);
      if newptr == NULL {
        SameBlocksMore(m1, t1, mem[..], tiles, {chunk});
        SameBlocksTrans(m, t, m1, t1, mem[..], tiles, {chunk});
        SameOther(m1, t1, mem[..], tiles, NULL, chunk);
        return NULL;
      }
      NextInHeap(mem[..], usage, freeList, tiles, fs, ChunkOf(newptr));
      MoveBlock(newptr, ptr, m1, t1);
      MoveResized(m, t, m1, t1, mem[..], tiles, chunk, ChunkOf(newptr), size);
    }

    /** The copy and release at the end of heapmem_realloc. */
    method MoveBlock(newptr: int, ptr: int, ghost m: Words, ghost t: set<int>)
      requires Valid() && Live(m, t, ChunkOf(ptr)) && ChunkOf(ptr) != NULL
      requires !Live(m, t, ChunkOf(newptr)) && Live(mem[..], tiles, ChunkOf(newptr))
      requires SameBlocks(m, t, mem[..], tiles, {ChunkOf(newptr)})
      requires |Block(m, ChunkOf(ptr))| <= |Block(mem[..], ChunkOf(newptr))|
      modifies this`usage, this`freeList, this`fs, this`tiles, mem
      ensures Valid() && Live(mem[..], tiles, ChunkOf(newptr)) && !Live(mem[..], tiles, ChunkOf(ptr))
      ensures SameBlocks(m, t, mem[..], tiles, {ChunkOf(newptr), ChunkOf(ptr)})
      ensures |Block(mem[..], ChunkOf(newptr))| == old(|Block(mem[..], ChunkOf(newptr))|)
      ensures Block(m, ChunkOf(ptr)) <= Block(mem[..], ChunkOf(newptr))
    {
      hide HeapOk, Block, SameBlocks;
      var c := ChunkOf(ptr);
      ghost var d := ChunkOf(newptr);
      ghost var m1, t1 := mem[..], tiles;
      SameOther(m, t, m1, t1, d, c);
      NextInHeap(m1, usage, freeList, tiles, fs, c);
      BlockLength(m1, c);
      CopyBlock(newptr, ptr, mem[c + 2]);
      ghost var m2 := mem[..];
      SameOther(m1, t1, m2, t1, d, c);
      FreeLive(c);
      SameOther(m2, t1, mem[..], tiles, c, d);
      SameBlocksWider(m, t, m1, t1, {d}, {d, c});
      SameBlocksWider(m1, t1, m2, t1, {d}, {d, c});
      SameBlocksWider(m2, t1, mem[..], tiles, {c}, {d, c});
      SameBlocksTrans(m, t, m1, t1, m2, t1, {d, c});
      SameBlocksTrans(m, t, m2, t1, mem[..], tiles, {d, c});
    }

    // ---- Statistics ------------------------------------------------------------------

    /** heapmem_stats walks the chunks and coalesces the free ones on its way. Sizes are in words. */
    method HeapStats() returns (stats: Stats)
      requires Valid()
      modifies this`freeList, this`fs, this`tiles, mem
      ensures Valid() && SameBlocks(old(mem[..]), old(tiles), mem[..], tiles, {})
      ensures stats.allocatedWords + stats.availableWords + stats.overheadWords == mem.Length
      ensures stats.allocatedWords == LiveWords(old(mem[..]), 0, usage)
      ensures stats.footprint == usage && stats.overheadWords == 4 * stats.chunks && stats.chunks == |tiles|
      ensures forall c :: c in tiles && !Allocated(mem[..], c) ==> End(mem[..], c) == usage || Live(mem[..], tiles, End(mem[..], c))
    {
      hide HeapOk, Coalesced, SameBlocks, LiveWords, SettledBelow;
      ghost var m0, t0 := mem[..], tiles;
      SameBlocksRefl(m0, t0);
      UsageFits(m0, usage, freeList, tiles, fs);
      FirstChunk(m0, usage, freeList, tiles, fs);
      SettledAtStart(m0, tiles, usage, freeList, fs);
      var allocatedWords, availableWords, overheadWords, chunk := 0, 0, 0, 0;
      ghost var n := 0;
      while chunk < usage
        invariant Valid() && 0 <= chunk <= usage && (chunk == usage || chunk in tiles)
        invariant SameBlocks(m0, t0, mem[..], tiles, {})
        invariant allocatedWords + availableWords + overheadWords == chunk && overheadWords == HDR * n
        invariant allocatedWords + LiveWords(mem[..], chunk, usage) == LiveWords(m0, 0, usage)
        invariant SettledBelow(mem[..], tiles, usage, chunk, n)
        decreases usage - chunk
      {
        ghost var m, t, head1, fs1 := mem[..], tiles, freeList, fs;
        NextInHeap(m, usage, freeList, tiles, fs, chunk);
        if mem[chunk + 3] % 2 == 1 {
          allocatedWords := allocatedWords + mem[chunk + 2];
        } else {
          CoalesceChunks(chunk);
          FreeTurn(m, t, head1, fs1, mem[..], tiles, freeList, fs, usage, chunk, n);
          NextInHeap(mem[..], usage, freeList, tiles, fs, chunk);
          SameBlocksTrans(m0, t0, m, t, mem[..], tiles, {});
          availableWords := availableWords + mem[chunk + 2];
        }
        overheadWords := overheadWords + HDR;
        LiveWordsStep(mem[..], usage, freeList, tiles, fs, chunk);
        SettledStep(mem[..], usage, freeList, tiles, fs, chunk, n);
        n := n + 1;
        chunk := chunk + HDR + mem[chunk + 2];
      }
      SettledAtEnd(mem[..], tiles, usage, freeList, fs, n);
      LiveWordsEnd(mem[..], usage);
      availableWords := availableWords + (mem.Length - usage);
      stats := Stats(allocatedWords, overheadWords, availableWords, usage, overheadWords / HDR);
    }
  }

  lemma FlagsFrame(m: Words, head: int, fs: seq<int>, T: set<int>, c: int, flags: int)
    requires ListState(m, head, fs, T) && c in T && flags % 2 == 0
    ensures var m' := m[c + 3 := flags];
      ListState(m', head, fs, T) && OnlyLinks(m, m', T, c) && !Allocated(m', c)
  {
    var m' := m[c + 3 := flags];
    assert InHeader(T, c + 3);
    ListFrame(m, m', head, fs, T, T);
  }

  /** A chunk with no free chunk behind it. */
  ghost predicate Settled(m: Words, tiles: set<int>, usage: int, c: int) {
    End(m, c) == usage || Live(m, tiles, End(m, c))
  }

  ghost predicate AllSettled(m: Words, tiles: set<int>, usage: int, cs: seq<int>) {
    forall c :: c in cs ==> Settled(m, tiles, usage, c)
  }

  /** gs is fs with some members left out: what was before a member, and how many followed it, only shrinks. */
  ghost predicate Thinned(fs: seq<int>, gs: seq<int>) {
    forall k :: 0 <= k < |gs| ==> ThinnedAt(fs, gs, k)
  }

  ghost predicate ThinnedAt(fs: seq<int>, gs: seq<int>, k: int)
    requires 0 <= k < |gs|
  {
    exists i :: 0 <= i < |fs| && Corresponds(fs, i, gs, k)
  }

  ghost predicate Corresponds(fs: seq<int>, i: int, gs: seq<int>, k: int)
    requires 0 <= i < |fs| && 0 <= k < |gs|
  {
    && fs[i] == gs[k] && |gs| - k <= |fs| - i
    && forall x :: x in gs[..k] ==> x in fs[..i]
  }

  lemma ThinnedRefl(fs: seq<int>)
    ensures Thinned(fs, fs)
  {
    forall k | 0 <= k < |fs| ensures ThinnedAt(fs, fs, k) {
      assert Corresponds(fs, k, fs, k);
    }
  }

  lemma ThinnedTrans(fs: seq<int>, gs: seq<int>, hs: seq<int>)
    requires Thinned(fs, gs) && Thinned(gs, hs)
    ensures Thinned(fs, hs)
  {
    forall k | 0 <= k < |hs| ensures ThinnedAt(fs, hs, k) {
      assert ThinnedAt(gs, hs, k);
      var i :| 0 <= i < |gs| && Corresponds(gs, i, hs, k);
      assert ThinnedAt(fs, gs, i);
      var l :| 0 <= l < |fs| && Corresponds(fs, l, gs, i);
      assert Corresponds(fs, l, hs, k);
    }
  }

  lemma RemoveAtThins(fs: seq<int>, i: int)
    requires 0 <= i < |fs|
    ensures Thinned(fs, RemoveAt(fs, i))
  {
    var gs := RemoveAt(fs, i);
    forall k | 0 <= k < |gs| ensures ThinnedAt(fs, gs, k) {
      RemoveAtCorresponds(fs, i, k);
      assert Corresponds(fs, if k < i then k else k + 1, gs, k);
    }
  }

  lemma RemoveAtCorresponds(fs: seq<int>, i: int, k: int)
    requires 0 <= i < |fs| && 0 <= k < |fs| - 1
    ensures |RemoveAt(fs, i)| == |fs| - 1
    ensures Corresponds(fs, if k < i then k else k + 1, RemoveAt(fs, i), k)
  {
    var gs := RemoveAt(fs, i);
    var l := if k < i then k else k + 1;
    forall x | x in gs[..k] ensures x in fs[..l] {
      var p :| 0 <= p < k && gs[p] == x;
      assert fs[..l][if p < i then p else p + 1] == x;
    }
  }

  lemma NoneSettled(m: Words, tiles: set<int>, usage: int, fs: seq<int>)
    ensures AllSettled(m, tiles, usage, fs[..0])
  {
  }

  /** Coalescing one chunk leaves the others settled. */
  lemma SettledKept(m: Words, t: set<int>, m': Words, t': set<int>, usage: int, c: int, x: int)
    requires Coalesced(m, t, m', t', c) && Settled(m, t, usage, x) && x in t' && x != c
    ensures Settled(m', t', usage, x)
  {
  }

  /** After a visit to chunk c, at place j of the list before, the list is settled up to and including c. */
  lemma VisitedSettled(m: Words, t: set<int>, fs: seq<int>, m': Words, t': set<int>, fs': seq<int>,
                       usage: int, head: int, head': int, c: int, j: nat) returns (j': nat)
    requires HeapOk(m, usage, head, t, fs) && j < |fs| && fs[j] == c && AllSettled(m, t, usage, fs[..j])
    requires Coalesced(m, t, m', t', c) && Thinned(fs, fs') && Settled(m', t', usage, c)
    requires HeapOk(m', usage, head', t', fs') && c in fs'
    ensures 0 < j' <= |fs'| && fs'[j' - 1] == c && AllSettled(m', t', usage, fs'[..j'])
    ensures |fs'| - j' < |fs| - j
  {
    hide Coalesced, Settled;
    var k :| 0 <= k < |fs'| && fs'[k] == c;
    assert ThinnedAt(fs, fs', k);
    var i :| 0 <= i < |fs| && Corresponds(fs, i, fs', k);
    assert i == j;
    j' := k + 1;
    forall x | x in fs'[..j'] ensures Settled(m', t', usage, x) {
      if x != c {
        assert x in fs'[..k];
        assert x in fs';
        SettledKept(m, t, m', t', usage, c, x);
      }
    }
  }

  lemma RemoveAtMembers(fs: seq<int>, i: int)
    requires 0 <= i < |fs| && Distinct(fs)
    ensures forall f :: f in RemoveAt(fs, i) <==> f in fs && f != fs[i]
  {
    var gs := RemoveAt(fs, i);
    forall f | f in fs && f != fs[i] ensures f in gs {
      var j :| 0 <= j < |fs| && fs[j] == f;
      assert gs[if j < i then j else j - 1] == f;
    }
  }

  lemma CoalescedRefl(m: Words, tiles: set<int>, c: int)
    requires c in tiles
    ensures Coalesced(m, tiles, m, tiles, c)
  {
  }

  lemma NextIsTile(m: Words, tiles: set<int>, usage: int, c: int)
    requires Tiling(m, tiles, usage) && c in tiles
    ensures 0 <= c <= |m| - HDR && End(m, c) <= usage
    ensures End(m, c) < usage ==> End(m, c) in tiles && End(m, c) <= |m| - HDR
  {
    assert Abuts(m, tiles, usage, c);
  }

  lemma NextInHeap(m: Words, usage: int, head: int, tiles: set<int>, fs: seq<int>, c: int)
    requires HeapOk(m, usage, head, tiles, fs) && c in tiles
    ensures 0 <= c <= |m| - HDR && 0 <= Size(m, c) && End(m, c) <= usage <= |m|
    ensures End(m, c) < usage ==> End(m, c) in tiles && End(m, c) <= |m| - HDR
  {
    NextIsTile(m, tiles, usage, c);
  }

  lemma SizeOnlyFrame(m: Words, m1: Words, head: int, fs: seq<int>, tiles: set<int>, c: int)
    requires ListState(m, head, fs, tiles) && c in tiles && |m1| == |m| && m1 == m[c + 2 := m1[c + 2]]
    ensures ListState(m1, head, fs, tiles)
  {
    ListFrame(m, m1, head, fs, tiles, tiles);
  }

  /** The free chunks that a bounded search examines. */
  ghost function Examined(fs: seq<int>): seq<int> {
    if |fs| <= SEARCH_MAX then fs else fs[..SEARCH_MAX]
  }

  lemma SameBlocksRefl(m: Words, tiles: set<int>)
    ensures SameBlocks(m, tiles, m, tiles, {})
  {
  }

  lemma ListAt(m: Words, usage: int, head: int, tiles: set<int>, fs: seq<int>, i: int)
    requires HeapOk(m, usage, head, tiles, fs) && 0 <= i < |fs|
    ensures var c := fs[i];
      && c in tiles && !Allocated(m, c) && 0 <= c <= |m| - HDR && c != NULL
      && if Next(m, c) == NULL then i == |fs| - 1 else i < |fs| - 1 && Next(m, c) == fs[i + 1]
  {
    NeighboursInList(m, head, fs, tiles, i);
    assert fs[i] in fs && LinkedAt(m, fs, i);
  }

  lemma ListHeadAt(m: Words, usage: int, head: int, tiles: set<int>, fs: seq<int>)
    requires HeapOk(m, usage, head, tiles, fs)
    ensures if head == NULL then fs == [] else fs != [] && head == fs[0]
  {
    if fs != [] {
      ListAt(m, usage, head, tiles, fs, 0);
    }
  }

  lemma ListedIsFree(m: Words, usage: int, head: int, tiles: set<int>, fs: seq<int>, c: int)
    requires HeapOk(m, usage, head, tiles, fs) && c in fs
    ensures c in tiles && !Allocated(m, c)
  {
  }

  lemma ListNext(m: Words, usage: int, head: int, tiles: set<int>, fs: seq<int>, c: int)
    requires HeapOk(m, usage, head, tiles, fs) && c in fs
    ensures 0 <= c <= |m| - HDR && (Next(m, c) != NULL ==> Next(m, c) in fs)
  {
    var i :| 0 <= i < |fs| && fs[i] == c;
    ListAt(m, usage, head, tiles, fs, i);
  }

  /** A free chunk is still free, and listed, after coalescing, which then changes no block. */
  lemma CoalescedFree(m: Words, tiles: set<int>, m': Words, usage: int, head: int, tiles': set<int>, fs': seq<int>, c: int)
    requires Coalesced(m, tiles, m', tiles', c) && !Allocated(m, c) && HeapOk(m', usage, head, tiles', fs')
    ensures c in fs' && SameBlocks(m, tiles, m', tiles', {})
  {
    CoalescedBlocks(m, tiles, m', tiles', c);
  }

  /** best is the smallest chunk of at least size in fs, or NULL if there is none. */
  ghost predicate BestFit(m: Words, fs: seq<int>, size: int, best: int) {
    if best == NULL then forall f :: f in fs ==> Size(m, f) < size
    else best in fs && Size(m, best) >= size && forall f :: f in fs && Size(m, f) >= size ==> Size(m, best) <= Size(m, f)
  }

  /** No free chunk that the search examines is large enough, and neither is the rest of the arena. */
  ghost predicate NoRoom(m: Words, usage: int, fs: seq<int>, size: int) {
    usage + HDR + size > |m| && BestFit(m, Examined(fs), size, NULL)
  }

  /** What best fit means: at most the first sixteen chunks of the list are compared, and the chunk taken is the smallest
      of those that hold the bytes asked for, or there is none. */
  lemma BestOfSixteen(m: Words, fs: seq<int>, bytes: nat, best: int)
    requires NULL !in fs && BestFit(m, Examined(fs), Align(bytes), best)
    ensures forall i :: 0 <= i < |fs| && i < 16 && bytes <= 4 * Size(m, fs[i]) ==>
      best != NULL && Size(m, best) <= Size(m, fs[i])
    ensures best != NULL ==>
      exists i :: 0 <= i < |fs| && i < 16 && best == fs[i] && bytes <= 4 * Size(m, fs[i])
  {
    var es := Examined(fs);
    forall i | 0 <= i < |fs| && i < 16 && bytes <= 4 * Size(m, fs[i])
      ensures best != NULL && Size(m, best) <= Size(m, fs[i])
    {
      assert es[i] in es && Size(m, es[i]) >= Align(bytes);
    }
    if best != NULL {
      var i :| 0 <= i < |es| && es[i] == best;
      assert fs[i] == best;
    }
  }

  lemma NoneYet(m: Words, fs: seq<int>, size: int)
    ensures BestFit(m, fs[..0], size, NULL)
  {
  }

  lemma BestInHeap(m: Words, usage: int, head: int, tiles: set<int>, fs: seq<int>, j: int, size: int, best: int)
    requires HeapOk(m, usage, head, tiles, fs) && 0 <= j <= |fs| && BestFit(m, fs[..j], size, best)
    ensures best != NULL ==> best in fs && 0 <= best <= |m| - HDR
  {
    if best != NULL {
      ListNext(m, usage, head, tiles, fs, best);
    }
  }

  lemma BestExtends(m: Words, fs: seq<int>, j: int, size: int, best: int)
    requires 0 <= j < |fs| && BestFit(m, fs[..j], size, best) && fs[j] != NULL
    ensures BestFit(m, fs[..j + 1], size,
      if size <= Size(m, fs[j]) && (best == NULL || Size(m, fs[j]) < Size(m, best)) then fs[j] else best)
  {
    assert fs[..j + 1] == fs[..j] + [fs[j]];
    assert forall f :: f in fs[..j + 1] <==> f in fs[..j] || f == fs[j];
  }

  lemma PerfectFit(m: Words, fs: seq<int>, j: int, size: int, best: int)
    requires 0 <= j <= |fs| && j <= SEARCH_MAX && BestFit(m, fs[..j], size, best) && best != NULL && Size(m, best) == size
    ensures BestFit(m, Examined(fs), size, best) && best in fs
  {
    assert fs[..j] <= Examined(fs);
  }

  lemma SameBlocksMore(m: Words, t: set<int>, m': Words, t': set<int>, ex: set<int>)
    requires SameBlocks(m, t, m', t', {})
    ensures SameBlocks(m, t, m', t', ex)
  {
  }

  lemma SameLive(m: Words, t: set<int>, m': Words, t': set<int>, c: int)
    requires SameBlocks(m, t, m', t', {})
    ensures Live(m, t, c) <==> Live(m', t', c)
  {
  }

  lemma BlockLength(m: Words, c: int)
    requires 0 <= c && 0 <= Size(m, c) && End(m, c) <= |m|
    ensures |Block(m, c)| == Size(m, c)
  {
  }

  lemma HeapIsListed(m: Words, usage: int, head: int, tiles: set<int>, fs: seq<int>)
    requires HeapOk(m, usage, head, tiles, fs)
    ensures ListState(m, head, fs, tiles)
  {
  }

  lemma UsageFits(m: Words, usage: int, head: int, tiles: set<int>, fs: seq<int>)
    requires HeapOk(m, usage, head, tiles, fs)
    ensures 0 <= usage <= |m|
  {
  }

  lemma BestIsLarge(m: Words, fs: seq<int>, size: int, best: int)
    requires BestFit(m, Examined(fs), size, best) && best != NULL
    ensures Size(m, best) >= size
  {
  }

  /** The first words of two blocks agree, as many as both the old block and the request have. */
  ghost predicate CommonPrefix(b: Words, b': Words, size: int) {
    var n := if |b| <= size then |b| else size;
    0 <= n <= |b'| && b'[..n] == b[..n]
  }

  lemma SameBlocksWider(m: Words, t: set<int>, m': Words, t': set<int>, ex: set<int>, ex': set<int>)
    requires SameBlocks(m, t, m', t', ex) && ex <= ex'
    ensures SameBlocks(m, t, m', t', ex')
  {
  }

  lemma SameOther(m: Words, t: set<int>, m': Words, t': set<int>, d: int, c: int)
    requires SameBlocks(m, t, m', t', {d}) || SameBlocks(m, t, m', t', {})
    requires c != d && Live(m, t, c)
    ensures Live(m', t', c) && Block(m', c) == Block(m, c)
  {
  }

  lemma BlockWord(m: Words, usage: int, head: int, tiles: set<int>, fs: seq<int>, c: int, i: int)
    requires HeapOk(m, usage, head, tiles, fs) && c in tiles && 0 <= i < |Block(m, c)|
    ensures 0 <= c + HDR + i < |m| && m[c + HDR + i] == Block(m, c)[i]
  {
    NextInHeap(m, usage, head, tiles, fs, c);
  }

  lemma CoalescedGrows(m: Words, t: set<int>, m': Words, t': set<int>, c: int)
    requires Coalesced(m, t, m', t', c) && Live(m, t, c)
    ensures SameBlocks(m, t, m', t', {c}) && Live(m', t', c) && Block(m, c) <= Block(m', c)
  {
    CoalescedBlocks(m, t, m', t', c);
  }

  /** What a successful or failed resizing of the live block c promises; r is its new chunk. */
  ghost predicate Resized(m: Words, t: set<int>, m': Words, t': set<int>, c: int, r: int, size: int) {
    if r == NULL then
      Live(m', t', c) && Block(m, c) <= Block(m', c) && SameBlocks(m, t, m', t', {c})
    else
      && Live(m', t', r) && size <= |Block(m', r)|
      && (r != c ==> !Live(m, t, r) && !Live(m', t', c))
      && SameBlocks(m, t, m', t', {c, r})
      && CommonPrefix(Block(m, c), Block(m', r), size)
  }

  lemma ShrinkResized(m: Words, t: set<int>, m': Words, t': set<int>, c: int, size: int)
    requires c != NULL && Live(m', t', c) && SameBlocks(m, t, m', t', {c}) && Block(m', c) <= Block(m, c)
    requires 0 <= size <= |Block(m', c)|
    ensures Resized(m, t, m', t', c, c, size)
  {
    hide Block, SameBlocks;
    SameBlocksWider(m, t, m', t', {c}, {c, c});
    PrefixOf(Block(m', c), Block(m, c), size);
  }

  lemma PrefixOf(a: Words, b: Words, n: int)
    requires a <= b && 0 <= n <= |a|
    ensures b[..n] == a[..n]
  {
  }

  lemma GrowResized(m: Words, t: set<int>, m': Words, t': set<int>, c: int, size: int)
    requires c != NULL && Live(m', t', c) && SameBlocks(m, t, m', t', {c}) && Block(m, c) <= Block(m', c)
    requires |Block(m, c)| <= size <= |Block(m', c)|
    ensures Resized(m, t, m', t', c, c, size)
  {
    hide Block, SameBlocks;
    SameBlocksWider(m, t, m', t', {c}, {c, c});
  }

  /** Coalesced first, then split. */
  lemma ShrinkAfterGrow(m: Words, t: set<int>, m1: Words, m': Words, t': set<int>, c: int, size: int)
    requires c != NULL && Live(m', t', c) && SameBlocks(m, t, m', t', {c})
    requires Block(m, c) <= Block(m1, c) && Block(m', c) <= Block(m1, c)
    requires |Block(m, c)| <= size <= |Block(m', c)|
    ensures Resized(m, t, m', t', c, c, size)
  {
    hide Block, SameBlocks;
    SameBlocksWider(m, t, m', t', {c}, {c, c});
    PrefixOf(Block(m', c), Block(m1, c), |Block(m, c)|);
    PrefixOf(Block(m, c), Block(m1, c), |Block(m, c)|);
  }

  /** Moved to a new block. */
  lemma MoveResized(m: Words, t: set<int>, m1: Words, t1: set<int>, m': Words, t': set<int>, c: int, r: int, size: int)
    requires c != NULL && r != NULL && c != r
    requires Resized(m, t, m1, t1, c, NULL, size) && |Block(m1, c)| < size
    requires Live(m', t', r) && !Live(m', t', c) && !Live(m1, t1, r)
    requires SameBlocks(m1, t1, m', t', {r, c}) && Block(m1, c) <= Block(m', r) && size <= |Block(m', r)|
    ensures Resized(m, t, m', t', c, r, size)
  {
    hide Block;
    SameBlocksWider(m, t, m1, t1, {c}, {c, r});
    assert {r, c} == {c, r};
    SameBlocksTrans(m, t, m1, t1, m', t', {c, r});
    var n := |Block(m, c)|;
    PrefixOf(Block(m, c), Block(m1, c), n);
    PrefixOf(Block(m1, c), Block(m', r), n);
  }

  // ---- Statistics --------------------------------------------------------------------

  datatype Stats = Stats(allocatedWords: int, overheadWords: int, availableWords: int, footprint: int, chunks: int)

  /** Below offset x no free chunk is followed by another, and there are n chunks. */
  ghost predicate SettledBelow(m: Words, tiles: set<int>, usage: int, x: int, n: int) {
    && (forall t :: t in tiles && t < x && !Allocated(m, t) ==>
          End(m, t) == usage || Live(m, tiles, End(m, t)))
    && n == |Below(tiles, x)|
  }

  ghost function Below(tiles: set<int>, x: int): set<int> {
    set t | t in tiles && t < x
  }

  lemma SettledAtStart(m: Words, tiles: set<int>, usage: int, head: int, fs: seq<int>)
    requires HeapOk(m, usage, head, tiles, fs)
    ensures SettledBelow(m, tiles, usage, 0, 0)
  {
    TilesBelow(m, tiles, usage);
    assert Below(tiles, 0) == {};
  }

  lemma SettledAtEnd(m: Words, tiles: set<int>, usage: int, head: int, fs: seq<int>, n: int)
    requires HeapOk(m, usage, head, tiles, fs) && SettledBelow(m, tiles, usage, usage, n)
    ensures n == |tiles|
    ensures forall c :: c in tiles && !Allocated(m, c) ==> End(m, c) == usage || Live(m, tiles, End(m, c))
  {
    TilesBelow(m, tiles, usage);
    assert Below(tiles, usage) == tiles;
  }

  lemma FirstChunk(m: Words, usage: int, head: int, tiles: set<int>, fs: seq<int>)
    requires HeapOk(m, usage, head, tiles, fs)
    ensures 0 == usage || 0 in tiles
  {
  }

  lemma LiveWordsStep(m: Words, usage: int, head: int, tiles: set<int>, fs: seq<int>, c: int)
    requires HeapOk(m, usage, head, tiles, fs) && c in tiles
    ensures LiveWords(m, c, usage) == (if Allocated(m, c) then Size(m, c) else 0) + LiveWords(m, End(m, c), usage)
  {
    TileStep(m, tiles, usage, c);
  }

  lemma LiveWordsEnd(m: Words, usage: int)
    ensures LiveWords(m, usage, usage) == 0
  {
  }

  /** One turn passes over chunk c, which is live or has just been coalesced. */
  lemma SettledStep(m: Words, usage: int, head: int, tiles: set<int>, fs: seq<int>, c: int, n: int)
    requires HeapOk(m, usage, head, tiles, fs) && c in tiles && SettledBelow(m, tiles, usage, c, n)
    requires !Allocated(m, c) ==> End(m, c) == usage || Live(m, tiles, End(m, c))
    ensures SettledBelow(m, tiles, usage, End(m, c), n + 1)
  {
    hide Size, Tiling, ListState;
    TileStep(m, tiles, usage, c);
    assert forall t :: t in tiles && t < End(m, c) ==> t <= c;
    assert Below(tiles, End(m, c)) == Below(tiles, c) + {c};
  }

  /** Coalescing the free chunk c changes no live words ahead, and nothing behind. */
  lemma FreeTurn(m: Words, t: set<int>, head: int, fs: seq<int>, m': Words, t': set<int>, head': int, fs': seq<int>,
                 usage: int, c: int, n: int)
    requires HeapOk(m, usage, head, t, fs) && HeapOk(m', usage, head', t', fs')
    requires Coalesced(m, t, m', t', c) && !Allocated(m, c) && SettledBelow(m, t, usage, c, n)
    ensures c in t' && SameBlocks(m, t, m', t', {}) && !Allocated(m', c)
    ensures LiveWords(m', c, usage) == LiveWords(m, c, usage)
    ensures SettledBelow(m', t', usage, c, n)
  {
    hide Size, Tiling, ListState, Block, LiveWords;
    CoalescedLiveWords(m, t, m', t', usage, c);
    CoalescedBlocks(m, t, m', t', c);
    assert Below(t', c) == Below(t, c);
  }
}
