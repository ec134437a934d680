/**
 The allocator of miniheap.c, on memory words. The ghost field `arena` says which bytes are whose; every method relates
 its old and new value by the relations of modules Arena and Trim, and says which words of memory it may have written.
 */
module Miniheap {
  import opened Lists
  import opened Chunks
  import opened Rounding
  import opened Arena
  import opened Trim
  import opened FreeList
  import opened TrimList
  import opened Memory
  import HeapEffects

  /** Offset of `free_list` in struct heap and the struct's size; the lock is an empty struct. */
  const FREE_LIST := 16
  const HEAP_SIZE := 24

  /** The two words in front of every live pointer record its block. */
  ghost predicate Headers(w: seq<int>, live: map<int, Block>) {
    forall p :: p in live ==>
      HEADER <= p <= |w| && w[p - HEADER] == live[p].extent.addr && w[p - 4] == live[p].extent.len
  }

  /** No word of a block in `live` differs. */
  ghost predicate LiveKept(w: seq<int>, w': seq<int>, live: map<int, Block>) {
    |w'| == |w| && forall p, b :: p in live && live[p].extent.Has(b) && 0 <= b < |w| ==> w'[b] == w[b]
  }

  lemma HeadersKept(w: seq<int>, w': seq<int>, live: map<int, Block>)
    requires Headers(w, live) && LiveKept(w, w', live)
    requires forall p :: p in live ==> Holds(p, live[p])
    ensures Headers(w', live)
  {
  }

  /** Writes within bytes that belong to no live block keep every live block. */
  lemma KeptOutside(w: seq<int>, w': seq<int>, list: int, base: int, len: int, s: seq<Chunk>, live: map<int, Block>)
    requires WritesWithin(w, w', list, s) && SentinelOutside(|w|, list, base, len)
    requires forall p :: p in live ==> Inside(live[p].extent, base, len)
    requires forall b :: !(In(s, b) && InLive(live, b))
    ensures LiveKept(w, w', live)
  {
  }

  /** struct heap occupies HEAP_SIZE bytes outside the arena; the sentinel is its last field. */
  predicate HeapOutside(theHeap: int, base: int, len: int, limit: int) {
    && 0 < theHeap && theHeap + HEAP_SIZE <= limit && base + len <= limit
    && (theHeap + HEAP_SIZE <= base || base + len <= theHeap)
  }

  lemma SentinelPlace(theHeap: int, base: int, len: int, limit: int)
    requires HeapOutside(theHeap, base, len, limit)
    ensures SentinelOutside(limit, theHeap + FREE_LIST, base, len)
  {
  }

  class MiniHeap {
    const ram: array<int>
    const theHeap: int
    var base: int
    var len: int
    var remaining: int
    var lowWatermark: int
    ghost var arena: Arena

    function FreeList(): int {
      theHeap + FREE_LIST
    }

    ghost predicate Valid()
      reads this, ram
    {
      && ram.Length <= WORD && HeapOutside(theHeap, base, len, ram.Length)
      && arena.base == base && arena.len == len && Inv(arena)
      && Stored(ram[..], FreeList(), arena.free)
      && Headers(ram[..], arena.live)
      && remaining == Sum(arena.free) && lowWatermark == 0
    }

    /** miniheap_init on the range of `rangeLen` bytes at `start`. */
    constructor Init(memory: array<int>, heap: int, start: int, rangeLen: int)
      requires memory.Length <= WORD && HeapOutside(heap, start, rangeLen, memory.Length) && Range(start, rangeLen)
      modifies memory
      ensures Valid() && arena == Initial(start, rangeLen) && ram == memory && theHeap == heap
      ensures WritesWithin(old(memory[..]), memory[..], heap + FREE_LIST, Initial(start, rangeLen).free)
    {
      ram, theHeap, base, len := memory, heap, start, rangeLen;
      remaining, lowWatermark := 0, 0;
      arena := Initial(start, rangeLen);
      new;
      hide Stored, Join, AllSized, WritesWithin, Headers, Inv;
      SentinelPlace(theHeap, base, len, ram.Length);
      ListInitialize(ram, FreeList());
      EmptyStored(ram[..], FreeList());
      ListInitWrites(old(memory[..]), ram[..], FreeList(), arena.free);
      InitialInv(base, len);
      ghost var w := ram[..];
      if len > 0 {
        FirstPlacing(ram.Length, FreeList(), base, len);
        InsertFreeChunk(base, len, [], 0, Chunk(base, len));
        WithinTrans(old(memory[..]), w, ram[..], FreeList(), arena.free);
      }
      NoHeaders(ram[..]);
    }

    /** heap_create_free_chunk and heap_insert_free_chunk: the chunk `c` at `chunk` joins the free list. */
    method InsertFreeChunk(chunk: int, size: int, ghost s: seq<Chunk>, ghost k: nat, ghost c: Chunk)
      requires k <= |s| && Placing(ram.Length, FreeList(), base, len, s, k, c) && Stored(ram[..], FreeList(), s)
      requires chunk == c.addr && size == c.len
      modifies this`remaining, ram
      ensures Stored(ram[..], FreeList(), Join(s, k, c)) && remaining == old(remaining) + c.len
      ensures Canonical(Join(s, k, c)) && forall b :: In(Join(s, k, c), b) <==> In(s, b) || c.Has(b)
      ensures WritesWithin(old(ram[..]), ram[..], FreeList(), Join(s, k, c))
    {
      hide Stored, Join, AllSized, WritesWithin;
      ChunkWrite(ram[..], FreeList(), base, len, s, k, c);
      ram[chunk + LEN] := size;
      ghost var w := ram[..];
      remaining := remaining + size;
      var r := InsertChunk(ram, FreeList(), chunk, base, len, s, k, c);
      WithinTrans(old(ram[..]), w, ram[..], FreeList(), Join(s, k, c));
    }

    method Free(ptr: int)
      requires Valid() && (ptr == NULL || ptr in arena.live)
      modifies this, ram
      ensures Valid() && FreeStep(old(arena), ptr, arena)
      ensures WritesWithin(old(ram[..]), ram[..], FreeList(), arena.free)
      ensures LiveKept(old(ram[..]), ram[..], arena.live)
    {
      hide Stored, Join, WritesWithin, LiveKept, AllSized;
      if ptr == NULL {
        WithinSame(ram[..], FreeList(), arena.free);
        KeptSame(ram[..], arena.live);
        return;
      }
      ghost var c := arena.live[ptr].extent;
      SentinelPlace(theHeap, base, len, ram.Length);
      ghost var k := FreePlacing(ram.Length, FreeList(), arena, ptr);
      var start, size := ram[ptr - HEADER], ram[ptr - 4];
      InsertFreeChunk(start, size, arena.free, k, c);
      ghost var a := arena.(free := Join(arena.free, k, c), live := arena.live - {ptr});
      FreeFinish(old(ram[..]), ram[..], FreeList(), arena, ptr, k, a);
      arena := a;
    }

    /** Hands chunk `k`, the first fit, out: carves it, places the pointer and writes the header in front of it. */
    method Take(chunk: int, need: int, size: int, alignment: int, ghost k: nat) returns (ptr: int)
      requires Valid() && 0 <= size && 0 <= alignment && ValidAlignment(alignment) && need == Need(size, alignment)
      requires k < |arena.free| && FirstFit(arena.free, k, need) && chunk == arena.free[k].addr
      modifies this, ram
      ensures Valid() && ptr != NULL && ptr in arena.live && AllocStep(old(arena), size, alignment, ptr, arena)
      ensures WritesWithin(old(ram[..]), ram[..], FreeList(), old(arena.free))
      ensures LiveKept(old(ram[..]), ram[..], old(arena.live))
    {
      hide Stored, WritesWithin, LiveKept, AllSized, Canonical, Splice, Headers, IsPlace, Exclusive, Covered, ValidAlignment;
      SentinelPlace(theHeap, base, len, ram.Length);
      ghost var s, t := arena.free, Splice(arena.free, k, k + 1, Rest(arena.free[k], need));
      TakeCarving(ram.Length, FreeList(), arena, size, alignment, k);
      Carve(ram, FreeList(), chunk, need, base, len, s, k);
      ghost var w := ram[..];
      var taken := ram[chunk + LEN];
      ptr := PlacePointer(chunk, alignment);
      ghost var a := arena.(free := t, live := arena.live[ptr := Block(Handed(s[k], need), size)]);
      TakePlace(ram.Length, arena, size, alignment, k, ptr, a);
      ram[ptr - HEADER] := chunk;
      ram[ptr - 4] := taken;
      remaining := remaining - taken;
      if remaining < lowWatermark {
        lowWatermark := remaining;
      }
      TakeFinish(old(ram[..]), w, ram[..], FreeList(), arena, size, alignment, k, ptr, a);
      arena := a;
    }

    method Alloc(size: int, alignment: int) returns (ptr: int)
      requires Valid() && 0 <= size < WORD && 0 <= alignment < WORD
      requires ValidAlignment(alignment) ==> Need(size, alignment) < WORD
      modifies this, ram
      ensures Valid() && AllocStep(old(arena), size, alignment, ptr, arena)
      ensures ptr != NULL ==>
        && ptr in arena.live && 8 <= ptr <= ram.Length
        && ram[ptr - 8] == arena.live[ptr].extent.addr && ram[ptr - 4] == arena.live[ptr].extent.len
      ensures WritesWithin(old(ram[..]), ram[..], FreeList(), old(arena.free))
      ensures LiveKept(old(ram[..]), ram[..], old(arena.live))
    {
      hide WritesWithin, LiveKept, Taken, IsPlace, Need, Stored, Inv;
      AlignmentTest(alignment);
      AdjustExact(size, alignment);
      WithinSame(ram[..], FreeList(), arena.free);
      KeptSame(ram[..], arena.live);
      if And(alignment, (alignment + WORD - 1) % WORD) != 0 {
        return NULL;
      }
      var need := Adjust(size, alignment);
      var chunk, k := FindFit(ram, FreeList(), need, arena.free);
      if chunk != FreeList() {
        ptr := Take(chunk, need, size, alignment, k);
        assert ram[..][ptr - HEADER] == arena.live[ptr].extent.addr;
      } else {
        ptr := NULL;
      }
    }

    /** Gives whole free pages back to the page allocator, which keeps no account of them. */
    method Trim()
      requires Valid()
      modifies this, ram
      ensures Valid() && TrimStep(old(arena), arena)
      ensures WritesWithin(old(ram[..]), ram[..], FreeList(), old(arena.free))
      ensures LiveKept(old(ram[..]), ram[..], arena.live)
    {
      hide Inv, Stored, WritesWithin, LiveKept, Headers, TrimFree, TrimPages;
      SentinelPlace(theHeap, base, len, ram.Length);
      InvShape(arena);
      var freed, visited := TrimAll(ram, FreeList(), base, len, arena.free);
      remaining := remaining - freed;
      ghost var a := arena.(free := TrimFree(arena.free), trimmed := arena.trimmed + TrimPages(arena.free));
      TrimFinish(old(ram[..]), ram[..], FreeList(), arena, a);
      arena := a;
    }

    /** Copies the first `size` bytes at `ptr` into the block at `p`: a write to the caller's part of a live block. */
    method CopyInto(p: int, ptr: int, size: int)
      requires Valid() && p in arena.live && 0 <= size <= arena.live[p].extent.End() - p
      requires 0 < p && 0 < ptr && ptr + size <= ram.Length && p + size <= ram.Length
      modifies ram
      ensures Valid() && LiveKept(old(ram[..]), ram[..], arena.live - {p})
      ensures forall i: nat :: i < size ==> ByteAt(ram[..], p + i) == ByteAt(old(ram[..]), Origin(p, ptr, i))
      ensures WritesWithin(old(ram[..]), ram[..], FreeList(), [arena.live[p].extent])
    {
      hide Stored, WritesWithin, LiveKept, Headers, ByteAt, Origin, Clear;
      SentinelPlace(theHeap, base, len, ram.Length);
      Memcpy(ram, p, ptr, size);
      UserWrites(old(ram[..]), ram[..], FreeList(), arena, p, size);
    }

    method Realloc(ptr: int, size: int) returns (p: int)
      requires Valid() && (ptr == NULL || ptr in arena.live) && 0 <= size < WORD && Need(size, 0) < WORD
      requires ptr != NULL && Need(size, 0) <= MaxLen(arena.free) ==> ptr + size <= ram.Length
      modifies this, ram
      ensures Valid() && ReallocStep(old(arena), ptr, size, p, arena)
      ensures ptr != NULL && size == 0 ==> p == NULL && arena.live == old(arena).live - {ptr}
      ensures ptr != NULL && p != NULL ==>
        arena.live.Keys == (old(arena).live.Keys - {ptr}) + {p} && arena.live[p].size == size
      ensures LiveKept(old(ram[..]), ram[..], old(arena.live) - {ptr})
      ensures p == NULL && size != 0 ==> arena == old(arena) && LiveKept(old(ram[..]), ram[..], old(arena.live))
      ensures p != NULL && ptr != NULL ==> 0 < p && 0 < ptr && p + size <= ram.Length
      ensures p != NULL && ptr != NULL ==>
        forall b :: ptr <= b < ptr + size && b < old(arena.live[ptr]).extent.End() ==>
          ByteAt(ram[..], p + (b - ptr)) == ByteAt(old(ram[..]), b)
    {
      hide Inv, Stored, WritesWithin, LiveKept, Headers, Need, AllocStep, FreeStep, ByteAt;
      ghost var a, w := arena, ram[..];
      if ptr == NULL {
        p := Alloc(size, 0);
        KeptFewer(w, ram[..], a.live, ptr);
        FailKeeps(a, size, 0, p, arena);
        return;
      }
      if size == 0 {
        Free(ptr);
        FreedLive(a, ptr, arena);
        HeapEffects.ReallocEffect(a, ptr, size, NULL, arena);
        return NULL;
      }
      p := Alloc(size, 0);
      KeptFewer(w, ram[..], a.live, ptr);
      FailKeeps(a, size, 0, p, arena);
      if p != NULL {
        SuccessFits(a, size, p, arena);
        Move(p, ptr, size, a, w);
        HeapEffects.ReallocEffect(a, ptr, size, p, arena);
      }
    }

    /** The second half of a realloc: copy to the new block, free the old. */
    method Move(p: int, ptr: int, size: int, ghost a: Arena, ghost w: seq<int>)
      requires Valid() && 0 < size && p != NULL && ptr != NULL && ptr in a.live && Inv(a) && a.base == base && a.len == len
      requires AllocStep(a, size, 0, p, arena) && LiveKept(w, ram[..], a.live) && |w| == ram.Length && ptr + size <= ram.Length
      modifies this, ram
      ensures Valid() && FreeStep(old(arena), ptr, arena) && LiveKept(w, ram[..], a.live - {ptr})
      ensures 0 < p && 0 < ptr && p + size <= ram.Length
      ensures forall b :: ptr <= b < ptr + size && b < a.live[ptr].extent.End() ==>
        ByteAt(ram[..], p + (b - ptr)) == ByteAt(w, b)
    {
      hide Inv, Stored, WritesWithin, LiveKept, Headers, AllocStep, ByteAt, Origin, Sized, Holds, Disjoint;
      ghost var m, w1 := arena, ram[..];
      ReallocSetup(a, ptr, size, p, m, ram.Length);
      CopyInto(p, ptr, size);
      ghost var w2 := ram[..];
      Free(ptr);
      KeptFewer(w, w1, a.live, ptr);
      KeptTwice(w, w1, w2, a.live - {ptr}, m.live - {p});
      KeptTwice(w, w2, ram[..], a.live - {ptr}, m.live - {ptr});
      forall b | ptr <= b < ptr + size && b < a.live[ptr].extent.End()
        ensures ByteAt(ram[..], p + (b - ptr)) == ByteAt(w, b)
      {
        ByteMoved(w, w1, w2, ram[..], a.live, m.live, p, ptr, b - ptr);
      }
    }

    /** heap_start, heap_len, heap_free, heap_max_chunk and heap_low_watermark. */
    method GetStats() returns (start: int, length: int, free: int, maxChunk: int, watermark: int)
      requires Valid()
      ensures start == base && length == len && free == remaining == Sum(arena.free) && maxChunk == MaxLen(arena.free)
      ensures watermark == 0
    {
      hide Inv, Headers;
      start, length, free, maxChunk := base, len, 0, 0;
      ghost var s, k := arena.free, 0;
      CycleNode(FreeList(), s, 0);
      CycleNode(FreeList(), s, 1);
      assert ram[..][FreeList() + NEXT] == Cycle(FreeList(), Addrs(s))[1];
      var chunk := ram[FreeList() + NEXT];
      assert s[0..] == s;
      while chunk != FreeList()
        invariant k <= |s| && chunk == NodeAt(FreeList(), s, k + 1)
        invariant free + Sum(s[k..]) == Sum(s) && Max(maxChunk, MaxLen(s[k..])) == MaxLen(s) && maxChunk >= 0
        decreases |s| - k
      {
        assert ram[..][s[k].addr + LEN] == s[k].len;
        assert s[k..][0] == s[k] && s[k..][1..] == s[k + 1..];
        free := free + ram[chunk + LEN];
        if ram[chunk + LEN] > maxChunk {
          maxChunk := ram[chunk + LEN];
        }
        CycleNode(FreeList(), s, k + 1);
        CycleNode(FreeList(), s, k + 2);
        assert ram[..][chunk + NEXT] == Cycle(FreeList(), Addrs(s))[k + 2];
        chunk := ram[chunk + NEXT];
        k := k + 1;
      }
      watermark := lowWatermark;
    }
  }

  /** Between allocation and copy: both blocks are live and apart. */
  lemma ReallocSetup(a: Arena, ptr: int, size: int, p: int, m: Arena, limit: int)
    requires Inv(a) && size >= 0 && AllocStep(a, size, 0, p, m) && p != NULL && ptr in a.live && ptr != NULL
    requires a.base + a.len <= limit
    ensures p in m.live && ptr in m.live && p != ptr && m.live == a.live[p := m.live[p]] && p !in a.live
    ensures 0 < p && 0 < ptr && p + size <= limit && size <= m.live[p].extent.End() - p
    ensures Disjoint(m.live[p].extent, m.live[ptr].extent) && Holds(p, m.live[p]) && Holds(ptr, m.live[ptr])
    ensures 0 < m.live[p].extent.addr && 0 < m.live[ptr].extent.addr
    ensures Sized(m.live[p].extent) && Sized(m.live[ptr].extent)
    ensures m.live[p].extent.End() <= limit && m.live[ptr].extent.End() <= limit
  {
    AllocInv(a, size, 0, p, m);
    var k: nat :| FirstFit(a.free, k, Need(size, 0)) && IsPlace(p, a.free[k].addr, 0) && Taken(a, k, size, Need(size, 0), p, m);
    TakenInv(a, k, size, 0, p, m);
    assert Holds(p, m.live[p]) && Inside(m.live[p].extent, m.base, m.len);
    assert Holds(ptr, m.live[ptr]) && Inside(m.live[ptr].extent, m.base, m.len);
  }

  /** A byte of a block whose words are kept is kept. */
  lemma ByteKept(w: seq<int>, w': seq<int>, live: map<int, Block>, p: int, b: int)
    requires LiveKept(w, w', live) && p in live && live[p].extent.Has(b) && Sized(live[p].extent)
    requires 0 <= live[p].extent.addr && live[p].extent.End() <= |w|
    ensures ByteAt(w', b) == ByteAt(w, b)
  {
  }

  /** A byte of the old block, through allocation, copy and release. */
  lemma ByteMoved(w: seq<int>, w1: seq<int>, w2: seq<int>, w3: seq<int>, old': map<int, Block>, live: map<int, Block>,
                  p: int, ptr: int, i: nat)
    requires p in live && ptr in live && ptr in old' && old'[ptr] == live[ptr] && p != ptr && 0 < p && 0 < ptr
    requires Disjoint(live[p].extent, live[ptr].extent) && Sized(live[p].extent) && Sized(live[ptr].extent)
    requires Holds(p, live[p]) && Holds(ptr, live[ptr]) && 0 < live[p].extent.addr && 0 < live[ptr].extent.addr
    requires live[p].extent.End() <= |w| && live[ptr].extent.End() <= |w|
    requires LiveKept(w, w1, old') && |w2| == |w1| && LiveKept(w2, w3, live - {ptr})
    requires p + i < live[p].extent.End() && ptr + i < live[ptr].extent.End()
    requires ByteAt(w2, p + i) == ByteAt(w1, Origin(p, ptr, i))
    ensures ByteAt(w3, p + i) == ByteAt(w, ptr + i)
  {
    hide ByteAt, LiveKept;
    assert |w1| == |w| && |w3| == |w2| by {
      KeptLength(w, w1, old');
      KeptLength(w2, w3, live - {ptr});
    }
    if ptr < p {
      DivisionUnique(i, p - ptr, 0, i);
    }
    assert Origin(p, ptr, i) == ptr + i;
    ByteKept(w, w1, old', ptr, ptr + i);
    ByteKept(w2, w3, live - {ptr}, p, p + i);
  }

  lemma KeptLength(w: seq<int>, w': seq<int>, live: map<int, Block>)
    requires LiveKept(w, w', live)
    ensures |w'| == |w|
  {
  }

  lemma KeptTwice(w: seq<int>, w1: seq<int>, w2: seq<int>, live: map<int, Block>, more: map<int, Block>)
    requires LiveKept(w, w1, live) && LiveKept(w1, w2, more)
    requires forall q :: q in live ==> q in more && more[q] == live[q]
    ensures LiveKept(w, w2, live)
  {
  }

  lemma InvShape(a: Arena)
    requires Inv(a)
    ensures Range(a.base, a.len) && Canonical(a.free) && AllSized(a.free, a.base, a.len)
  {
  }

  lemma TrimFinish(w: seq<int>, w': seq<int>, list: int, a: Arena, a': Arena)
    requires Inv(a) && TrimStep(a, a') && WritesWithin(w, w', list, a.free) && Headers(w, a.live)
    requires SentinelOutside(|w|, list, a.base, a.len)
    ensures Inv(a') && Headers(w', a'.live) && LiveKept(w, w', a.live)
    ensures Sum(a'.free) == Sum(a.free) - Sum(TrimPages(a.free))
  {
    hide WritesWithin, LiveKept, Headers, TrimFree, TrimPages;
    TrimInv(a, a');
    TrimSum(a.free);
    KeptOutside(w, w', list, a.base, a.len, a.free, a.live);
    HeadersKept(w, w', a.live);
  }

  lemma FailKeeps(a: Arena, size: int, alignment: int, p: int, a': Arena)
    requires Inv(a) && size >= 0 && alignment >= 0 && AllocStep(a, size, alignment, p, a')
    ensures p == NULL ==> a' == a
    ensures a'.base == a.base && a'.len == a.len
  {
    assert forall k :: 0 <= k < |a.free| ==> 0 < a.free[k].addr;
  }

  lemma SuccessFits(a: Arena, size: int, p: int, a': Arena)
    requires size >= 0 && AllocStep(a, size, 0, p, a') && p != NULL
    ensures Need(size, 0) <= MaxLen(a.free)
  {
    hide Need;
    NeedBounds(size, 0);
    MaxLenBounds(a.free, Need(size, 0));
  }

  lemma FreedLive(a: Arena, p: int, a': Arena)
    requires p != NULL && FreeStep(a, p, a')
    ensures a'.live == a.live - {p}
  {
  }

  lemma EmptyStored(w: seq<int>, list: int)
    requires Ring(w, list, [])
    ensures Stored(w, list, [])
  {
    assert Addrs([]) == [];
    assert Cycle(list, [])[0] == list;
  }

  lemma ListInitWrites(w: seq<int>, w': seq<int>, list: int, s: seq<Chunk>)
    requires |w'| == |w| && forall a :: 0 <= a < |w| && a != list && a != list + NEXT ==> w'[a] == w[a]
    ensures WritesWithin(w, w', list, s)
  {
  }

  /** The first chunk's place in the empty list. */
  lemma FirstPlacing(limit: int, list: int, base: int, len: int)
    requires Range(base, len) && 0 < len && SentinelOutside(limit, list, base, len)
    ensures Placing(limit, list, base, len, [], 0, Chunk(base, len))
    ensures Join([], 0, Chunk(base, len)) == Initial(base, len).free
    ensures Sum(Initial(base, len).free) == len
  {
  }

  lemma NoHeaders(w: seq<int>)
    ensures Headers(w, map[])
  {
  }

  lemma KeptFewer(w: seq<int>, w': seq<int>, live: map<int, Block>, p: int)
    requires LiveKept(w, w', live)
    ensures LiveKept(w, w', live - {p})
  {
  }

  /** A write to the caller's part of one live block keeps the heap and every other block. */
  lemma UserWrites(w: seq<int>, w': seq<int>, list: int, a: Arena, p: int, size: int)
    requires Inv(a) && SentinelOutside(|w|, list, a.base, a.len) && p in a.live && |w'| == |w|
    requires 0 <= size <= a.live[p].extent.End() - p
    requires forall y :: 0 <= y < |w| && Clear(y, p, size) ==> w'[y] == w[y]
    requires Stored(w, list, a.free) && Headers(w, a.live)
    ensures Stored(w', list, a.free) && Headers(w', a.live) && LiveKept(w, w', a.live - {p})
    ensures WritesWithin(w, w', list, [a.live[p].extent])
  {
    hide Stored, Headers, LiveKept, ListWord, WritesWithin, SentinelOutside;
    assert Holds(p, a.live[p]);
    forall y | 0 <= y < |w| && !(p <= y < a.live[p].extent.End()) ensures w'[y] == w[y] {
      ClearOutside(y, p, size, a.live[p].extent.End());
    }
    forall y | 0 <= y < |w| && ListWord(list, a.free, y) ensures w'[y] == w[y] {
      if p <= y < a.live[p].extent.End() {
        NotListWord(a, list, |w|, p, y);
      }
    }
    StoredFrame(w, w', list, a.free);
    OthersKept(w, w', a, p);
    UserWithin(w, w', list, a, p);
  }

  lemma ClearOutside(y: int, p: int, size: int, end: int)
    requires p % 4 == 0 && 0 <= size <= end - p && !(p <= y < end)
    ensures Clear(y, p, size)
  {
  }

  lemma UserWithin(w: seq<int>, w': seq<int>, list: int, a: Arena, p: int)
    requires p in a.live && |w'| == |w| && Holds(p, a.live[p])
    requires forall y :: 0 <= y < |w| && !(p <= y < a.live[p].extent.End()) ==> w'[y] == w[y]
    ensures WritesWithin(w, w', list, [a.live[p].extent])
  {
    forall y | p <= y < a.live[p].extent.End() ensures In([a.live[p].extent], y) {
      assert [a.live[p].extent][0].Has(y);
    }
  }

  lemma OthersKept(w: seq<int>, w': seq<int>, a: Arena, p: int)
    requires Inv(a) && p in a.live && |w'| == |w| && Headers(w, a.live)
    requires forall y :: 0 <= y < |w| && !(p <= y < a.live[p].extent.End()) ==> w'[y] == w[y]
    ensures Headers(w', a.live) && LiveKept(w, w', a.live - {p})
  {
    assert Holds(p, a.live[p]);
    forall q, b | q in a.live && q != p && a.live[q].extent.Has(b) && 0 <= b < |w| ensures w'[b] == w[b] {
      assert Disjoint(a.live[q].extent, a.live[p].extent);
    }
    forall q | q in a.live ensures HEADER <= q <= |w'| && w'[q - HEADER] == w[q - HEADER] && w'[q - 4] == w[q - 4] {
      assert Holds(q, a.live[q]);
      assert a.live[q].extent.Has(q - HEADER) && a.live[q].extent.Has(q - 4);
    }
  }

  /** The adjusted size of an allocation in 32-bit arithmetic. */
  function Adjust(size: nat, alignment: nat): nat {
    var padded := (size + HEADER) % WORD;
    var n := RoundUp(if padded < CHUNK_HEADER then CHUNK_HEADER else padded, 4);
    if alignment > 0 then (n + if alignment < 16 then 16 else alignment) % WORD else n
  }

  /** The 32-bit size is the room really needed exactly when that room fits in 32 bits. */
  lemma AdjustExact(size: nat, alignment: nat)
    requires size < WORD && alignment < WORD
    ensures Adjust(size, alignment) == Need(size, alignment) <==> Need(size, alignment) < WORD
  {
    var padded := (size + HEADER) % WORD;
    var m := if padded < CHUNK_HEADER then CHUNK_HEADER else padded;
    AndBound((m + 3) % WORD, WORD - 4);
    if Need(size, alignment) < WORD {
      NoWrap(size + HEADER);
      SmallPowers();
      RoundUpLeast(m, 4);
      AdjustArithmetic(m, RoundUp(m, 4));
      if alignment > 0 {
        NoWrap(RoundUp(m, 4) + if alignment < 16 then 16 else alignment);
      }
    }
  }

  /** Near 2^32 the size wraps: one request looks for 12 bytes, which is too little, another for none at all. */
  lemma AdjustWraps()
    ensures Adjust(0xffff_fffc, 0) == CHUNK_HEADER < Need(0xffff_fffc, 0)
    ensures Adjust(0xffff_fff5, 0) == 0 < Need(0xffff_fff5, 0)
  {
    SmallPowers();
    RoundUpLeast(CHUNK_HEADER, 4);
    assert RoundUp(0xffff_fffd, 4) == And(0, WORD - 4) == 0;
  }

  lemma AdjustArithmetic(m: int, r: int)
    requires r % 4 == 0 && m <= r < m + 4
    ensures r == m + (-m) % 4
  {
  }

  lemma AlignmentTest(alignment: nat)
    requires alignment < WORD
    ensures And(alignment, (alignment + WORD - 1) % WORD) == 0 <==> ValidAlignment(alignment)
  {
    if alignment > 0 {
      assert (alignment + WORD - 1) % WORD == alignment - 1;
      PowerTest(alignment);
    }
  }

  lemma TakeCarving(limit: int, list: int, a: Arena, size: int, alignment: int, k: nat)
    requires Inv(a) && size >= 0 && alignment >= 0 && ValidAlignment(alignment) && SentinelOutside(limit, list, a.base, a.len)
    requires FirstFit(a.free, k, Need(size, alignment))
    ensures Carving(limit, list, a.base, a.len, a.free, k, Need(size, alignment))
    ensures 0 < a.free[k].addr && a.free[k].addr + Need(size, alignment) <= WORD - PAGE_SIZE
    ensures a.free[k].addr + HEADER + Max(alignment, 16) <= WORD
  {
    hide Need, ValidAlignment, Sized, SentinelOutside;
    NeedBounds(size, alignment);
    NeedIsWords(size, alignment);
    assert Sized(a.free[k]) && Inside(a.free[k], a.base, a.len);
    SizedPositive(a.free[k]);
  }

  lemma SizedPositive(c: Chunk)
    requires Sized(c)
    ensures CHUNK_HEADER <= c.len
  {
  }

  /** The user pointer of the block at `chunk`: past the header, aligned if asked. */
  method PlacePointer(chunk: int, alignment: int) returns (ptr: int)
    requires 0 < chunk && 0 <= alignment && ValidAlignment(alignment) && chunk + HEADER + Max(alignment, 16) <= WORD
    ensures IsPlace(ptr, chunk, alignment)
  {
    ptr := chunk + HEADER;
    if alignment > 0 {
      RoundPlace(ptr, alignment);
      ptr := RoundUp(ptr, if alignment < 16 then 16 else alignment);
    }
  }

  lemma RoundPlace(x: nat, alignment: nat)
    requires 0 < alignment && ValidAlignment(alignment) && x + Max(alignment, 16) <= WORD
    ensures var m := Max(alignment, 16); RoundUp(x, m) % m == 0 && x <= RoundUp(x, m) < x + m
    ensures Max(alignment, 16) == if alignment < 16 then 16 else alignment
  {
    SmallPowers();
    RoundUpLeast(x, Max(alignment, 16));
  }

  /** The header words lie in the block handed out, which was free. */
  lemma TakePlace(limit: int, a: Arena, size: int, alignment: int, k: nat, p: int, a': Arena)
    requires Inv(a) && size >= 0 && alignment >= 0 && ValidAlignment(alignment) && a.base + a.len <= limit
    requires FirstFit(a.free, k, Need(size, alignment)) && IsPlace(p, a.free[k].addr, alignment)
    requires Taken(a, k, size, Need(size, alignment), p, a')
    ensures Inv(a') && p != NULL && p !in a.live && AllocStep(a, size, alignment, p, a')
    ensures 0 <= p - HEADER && p <= limit
  {
    TakenInv(a, k, size, alignment, p, a');
    assert Holds(p, a'.live[p]) && Inside(a'.live[p].extent, a.base, a.len);
  }

  /** The header is written into the block handed out: the rest of the free list and every live block stay. */
  lemma TakeFinish(w0: seq<int>, w: seq<int>, w': seq<int>, list: int, a: Arena, size: int, alignment: int, k: nat, p: int,
                   a': Arena)
    requires Inv(a) && Inv(a') && size >= 0 && alignment >= 0 && ValidAlignment(alignment) && p !in a.live
    requires FirstFit(a.free, k, Need(size, alignment)) && Taken(a, k, size, Need(size, alignment), p, a')
    requires SentinelOutside(|w0|, list, a.base, a.len) && Headers(w0, a.live) && |w| == |w0|
    requires WritesWithin(w0, w, list, a.free) && Stored(w, list, a'.free) && HEADER <= p <= |w|
    requires w' == w[p - HEADER := a'.live[p].extent.addr][p - 4 := a'.live[p].extent.len]
    ensures Stored(w', list, a'.free) && Headers(w', a'.live)
    ensures WritesWithin(w0, w', list, a.free) && LiveKept(w0, w', a.live)
    ensures Sum(a'.free) == Sum(a.free) - a'.live[p].extent.len && a'.live[p].extent.len <= Sum(a.free)
  {
    hide WritesWithin, Stored, LiveKept, Headers, AllSized, Splice;
    NeedBounds(size, alignment);
    assert Holds(p, a'.live[p]);
    HeaderStored(w, w', list, a', p, a'.live[p].extent.addr, a'.live[p].extent.len);
    HeaderWithin(w, w', list, a.free, k, a'.live[p].extent, p, a'.live[p].extent.addr, a'.live[p].extent.len);
    WithinTrans(w0, w, w', list, a.free);
    KeptOutside(w0, w', list, a.base, a.len, a.free, a.live);
    HeadersKept(w0, w', a.live);
    NewHeader(w', a, p, a');
    TakenSums(a, k, size, Need(size, alignment), p, a');
    SumPositive(a'.free);
  }

  lemma {:induction false} SumPositive(s: seq<Chunk>)
    requires forall i :: 0 <= i < |s| ==> s[i].len > 0
    ensures Sum(s) >= 0
  {
    if s == [] {
    } else {
      SumPositive(s[1..]);
    }
  }

  lemma NewHeader(w: seq<int>, a: Arena, p: int, a': Arena)
    requires p in a'.live && a'.live == a.live[p := a'.live[p]] && Headers(w, a.live) && HEADER <= p <= |w|
    requires w[p - HEADER] == a'.live[p].extent.addr && w[p - 4] == a'.live[p].extent.len
    ensures Headers(w, a'.live)
  {
  }

  /** Writing two words of a live block leaves the free list stored. */
  lemma HeaderStored(w: seq<int>, w': seq<int>, list: int, a: Arena, p: int, u: int, v: int)
    requires Inv(a) && SentinelOutside(|w|, list, a.base, a.len) && p in a.live && HEADER <= p <= |w|
    requires Stored(w, list, a.free) && w' == w[p - HEADER := u][p - 4 := v]
    ensures Stored(w', list, a.free)
  {
    hide Stored, Ring, ListWord, SentinelOutside;
    assert a.live[p].extent.Has(p - HEADER) && a.live[p].extent.Has(p - 4) by {
      assert Holds(p, a.live[p]);
    }
    NotListWord(a, list, |w|, p, p - HEADER);
    NotListWord(a, list, |w|, p, p - 4);
    StoredFrame(w, w', list, a.free);
  }

  /** The header of the block handed out lies in bytes that were free. */
  lemma HeaderWithin(w: seq<int>, w': seq<int>, list: int, s: seq<Chunk>, k: nat, e: Chunk, p: int, u: int, v: int)
    requires k < |s| && s[k].addr <= e.addr && e.End() <= s[k].End() && e.addr + HEADER <= p <= e.End()
    requires HEADER <= p <= |w| && w' == w[p - HEADER := u][p - 4 := v]
    ensures WritesWithin(w, w', list, s)
  {
  }

  /** The words of a live block are no list words. */
  lemma NotListWord(a: Arena, list: int, limit: int, p: int, x: int)
    requires Inv(a) && SentinelOutside(limit, list, a.base, a.len) && p in a.live && a.live[p].extent.Has(x)
    ensures !ListWord(list, a.free, x)
  {
    assert InLive(a.live, x);
    assert Inside(a.live[p].extent, a.base, a.len);
    forall i | 0 <= i < |a.free| ensures !(a.free[i].addr <= x < a.free[i].addr + CHUNK_HEADER) {
      assert Sized(a.free[i]);
      assert a.free[i].Has(x) ==> In(a.free, x);
    }
  }

  lemma KeptSame(w: seq<int>, live: map<int, Block>)
    ensures LiveKept(w, w, live)
  {
  }

  /** A live block has its place in the free list. */
  lemma FreePlacing(limit: int, list: int, a: Arena, p: int) returns (k: nat)
    requires Inv(a) && p in a.live && SentinelOutside(limit, list, a.base, a.len)
    ensures k <= |a.free| && Placing(limit, list, a.base, a.len, a.free, k, a.live[p].extent)
  {
    var c := a.live[p].extent;
    forall b | c.Has(b) ensures !In(a.free, b) {
      assert InLive(a.live, b);
    }
    k := PlaceExists(a.free, c);
  }

  /** Once the block is joined to the free list, the arena is as freeing wants it and every other block is intact. */
  lemma FreeFinish(w: seq<int>, w': seq<int>, list: int, a: Arena, p: int, k: nat, a': Arena)
    requires Inv(a) && p in a.live && p != NULL && k <= |a.free| && Headers(w, a.live)
    requires SentinelOutside(|w|, list, a.base, a.len)
    requires a' == a.(free := Join(a.free, k, a.live[p].extent), live := a.live - {p})
    requires Canonical(a'.free) && forall b :: In(a'.free, b) <==> In(a.free, b) || a.live[p].extent.Has(b)
    requires WritesWithin(w, w', list, a'.free)
    ensures FreeStep(a, p, a') && Inv(a') && Headers(w', a'.live) && LiveKept(w, w', a'.live)
    ensures Sum(a'.free) == Sum(a.free) + a.live[p].extent.len
  {
    hide WritesWithin, Join;
    FreeInv(a, p, a');
    JoinSum(a.free, k, a.live[p].extent);
    KeptOutside(w, w', list, a.base, a.len, a'.free, a'.live);
    HeadersKept(w, w', a'.live);
  }

  /** Writing the length of a chunk that is not in the list yet. */
  lemma ChunkWrite(w: seq<int>, list: int, base: int, len: int, s: seq<Chunk>, k: nat, c: Chunk)
    requires Placing(|w|, list, base, len, s, k, c) && Stored(w, list, s)
    ensures 0 < c.addr && c.addr + CHUNK_HEADER <= |w|
    ensures Stored(w[c.addr + LEN := c.len], list, s)
    ensures WritesWithin(w, w[c.addr + LEN := c.len], list, Join(s, k, c))
  {
    hide Ring, Join;
    var w' := w[c.addr + LEN := c.len];
    assert !ListWord(list, s, c.addr + LEN) by {
      forall i | 0 <= i < |s| ensures !(s[i].addr <= c.addr + LEN < s[i].addr + CHUNK_HEADER) {
        assert Sized(s[i]);
      }
    }
    StoredFrame(w, w', list, s);
    JoinBytes(s, k, c, c.addr + LEN);
  }
}
