/**
 What the allocator of miniheap.c does to its arena, told in bytes: which bytes are free, which belong to which live
 block, which were given back to the page allocator. Each operation is a relation between the arena before and after.
 */
module Arena {
  import opened Lists
  import opened Chunks
  import opened Rounding

  /** sizeof(struct alloc_struct_begin) and sizeof(struct free_heap_chunk). */
  const HEADER := 8
  const CHUNK_HEADER := 12
  const PAGE_SIZE := 4096

  /** A block handed out: the bytes it owns and the size its caller asked for. It is known by its user pointer. */
  datatype Block = Block(extent: Chunk, size: int)

  datatype Arena = Arena(base: int, len: int, free: seq<Chunk>, live: map<int, Block>, trimmed: seq<Chunk>)

  ghost predicate InLive(live: map<int, Block>, b: int) {
    exists p :: p in live && live[p].extent.Has(b)
  }

  predicate Sized(c: Chunk) {
    c.addr % 4 == 0 && c.len % 4 == 0 && CHUNK_HEADER <= c.len
  }

  predicate Inside(c: Chunk, base: int, len: int) {
    base <= c.addr && c.End() <= base + len
  }

  /** The header and the requested bytes lie in the block. */
  predicate Holds(p: int, blk: Block) {
    p % 4 == 0 && blk.extent.addr + HEADER <= p && 0 <= blk.size && p + blk.size <= blk.extent.End()
  }

  predicate Disjoint(c: Chunk, d: Chunk) {
    c.End() <= d.addr || d.End() <= c.addr
  }

  ghost predicate AllSized(s: seq<Chunk>, base: int, len: int) {
    forall i :: 0 <= i < |s| ==> Sized(s[i]) && Inside(s[i], base, len)
  }

  /** What miniheap_init may be given: words only, not at address 0, ending at least a page below 2^32. */
  predicate Range(base: int, len: int) {
    && 0 < base && base % 4 == 0 && len % 4 == 0 && (len == 0 || CHUNK_HEADER <= len)
    && base + len <= WORD - PAGE_SIZE
  }

  ghost predicate WellFormed(a: Arena) {
    && Range(a.base, a.len)
    && Canonical(a.free)
    && AllSized(a.free, a.base, a.len)
    && (forall p :: p in a.live ==> Sized(a.live[p].extent) && Inside(a.live[p].extent, a.base, a.len))
    && (forall p :: p in a.live ==> Holds(p, a.live[p]))
    && (forall p, q :: p in a.live && q in a.live && p != q ==> Disjoint(a.live[p].extent, a.live[q].extent))
    && (forall i :: 0 <= i < |a.trimmed| ==> Inside(a.trimmed[i], a.base, a.len))
  }

  /** No byte has two owners ... */
  ghost predicate Exclusive(a: Arena) {
    && (forall b :: !(In(a.free, b) && InLive(a.live, b)))
    && (forall b :: !(In(a.free, b) && In(a.trimmed, b)))
    && (forall b :: !(InLive(a.live, b) && In(a.trimmed, b)))
  }

  /** ... and none is lost. */
  ghost predicate Covered(a: Arena) {
    forall b :: a.base <= b < a.base + a.len ==> In(a.free, b) || InLive(a.live, b) || In(a.trimmed, b)
  }

  ghost function SumLive(live: map<int, Block>): int {
    if !exists p :: p in live then 0
    else
      var p :| p in live;
      live[p].extent.len + SumLive(live - {p})
  }

  ghost predicate Inv(a: Arena) {
    WellFormed(a) && Exclusive(a) && Covered(a) && Sum(a.free) + SumLive(a.live) + Sum(a.trimmed) == a.len
  }

  // ------------------------------------------------------------------ the operations

  function Initial(base: int, len: int): Arena {
    Arena(base, len, if len > 0 then [Chunk(base, len)] else [], map[], [])
  }

  function Max(x: int, y: int): int {
    if x > y then x else y
  }

  /** Room an allocation looks for: header, payload and worst-case alignment, at least a free chunk's header. */
  function Need(size: int, alignment: int): int {
    var n := Max(size + HEADER, CHUNK_HEADER);
    n + (-n) % 4 + if alignment > 0 then Max(alignment, 16) else 0
  }

  ghost predicate ValidAlignment(alignment: int) {
    alignment == 0 || IsPow2(alignment)
  }

  /** `k` is the lowest free chunk with `need` bytes. */
  ghost predicate FirstFit(free: seq<Chunk>, k: nat, need: int) {
    k < |free| && need <= free[k].len && forall j :: 0 <= j < k ==> free[j].len < need
  }

  ghost predicate NoFit(free: seq<Chunk>, need: int) {
    forall j :: 0 <= j < |free| ==> free[j].len < need
  }

  /** The user pointer for a block at `addr`. */
  predicate IsPlace(p: int, addr: int, alignment: int) {
    if alignment == 0 then p == addr + HEADER
    else p % Max(alignment, 16) == 0 && addr + HEADER <= p < addr + HEADER + Max(alignment, 16)
  }

  /** A chunk is split only when more than a chunk header is left over. */
  function Handed(c: Chunk, need: int): Chunk {
    if c.len > need + CHUNK_HEADER then Chunk(c.addr, need) else c
  }

  function Rest(c: Chunk, need: int): seq<Chunk> {
    if c.len > need + CHUNK_HEADER then [Chunk(c.addr + need, c.len - need)] else []
  }

  ghost predicate Taken(a: Arena, k: nat, size: int, need: int, p: int, a': Arena)
    requires k < |a.free|
  {
    a' == a.(free := Splice(a.free, k, k + 1, Rest(a.free[k], need)),
             live := a.live[p := Block(Handed(a.free[k], need), size)])
  }

  ghost predicate AllocStep(a: Arena, size: int, alignment: int, p: int, a': Arena) {
    var need := Need(size, alignment);
    if !ValidAlignment(alignment) || NoFit(a.free, need) then
      p == NULL && a' == a
    else
      exists k: nat :: FirstFit(a.free, k, need) && IsPlace(p, a.free[k].addr, alignment) && Taken(a, k, size, need, p, a')
  }

  /** Freeing gives the block's bytes back and leaves the free bytes coalesced. */
  ghost predicate FreeStep(a: Arena, p: int, a': Arena) {
    if p == NULL then
      a' == a
    else
      && p in a.live
      && a' == a.(free := a'.free, live := a.live - {p})
      && Canonical(a'.free)
      && forall b :: In(a'.free, b) <==> In(a.free, b) || a.live[p].extent.Has(b)
  }

  ghost predicate ReallocStep(a: Arena, p: int, size: int, q: int, a': Arena) {
    if p == NULL then AllocStep(a, size, 0, q, a')
    else if size == 0 then q == NULL && FreeStep(a, p, a')
    else p in a.live && exists m :: AllocStep(a, size, 0, q, m) && if q == NULL then a' == m else FreeStep(m, p, a')
  }

  /** The largest chunk. */
  function MaxLen(s: seq<Chunk>): (m: int)
    ensures m >= 0
  {
    if s == [] then 0 else Max(s[0].len, MaxLen(s[1..]))
  }

  lemma {:induction false} MaxLenBounds(s: seq<Chunk>, need: int)
    requires need > 0
    ensures NoFit(s, need) <==> MaxLen(s) < need
  {
    if s == [] {
    } else {
      MaxLenBounds(s[1..], need);
      assert forall j :: 0 < j < |s| ==> s[j] == s[1..][j - 1];
      assert forall j :: 0 <= j < |s| - 1 ==> s[1..][j] == s[j + 1];
    }
  }

  // ------------------------------------------------------------------ lemmas about live blocks

  lemma {:induction false} SumLiveRemove(live: map<int, Block>, p: int)
    requires p in live
    ensures SumLive(live) == live[p].extent.len + SumLive(live - {p})
    decreases |live|
  {
    var q :| q in live && SumLive(live) == live[q].extent.len + SumLive(live - {q});
    if q != p {
      SumLiveRemove(live - {q}, p);
      SumLiveRemove(live - {p}, q);
      assert live - {q} - {p} == live - {p} - {q};
    }
  }

  lemma SumLiveAdd(live: map<int, Block>, p: int, blk: Block)
    requires p !in live
    ensures SumLive(live[p := blk]) == blk.extent.len + SumLive(live)
  {
    SumLiveRemove(live[p := blk], p);
    assert live[p := blk] - {p} == live;
  }

  lemma InLiveAdd(live: map<int, Block>, p: int, blk: Block, b: int)
    requires p !in live
    ensures InLive(live[p := blk], b) <==> InLive(live, b) || blk.extent.Has(b)
  {
    var l := live[p := blk];
    assert l[p] == blk;
    if q :| q in live && live[q].extent.Has(b) {
      assert l[q].extent.Has(b);
    }
  }

  lemma InLiveRemove(a: Arena, p: int, b: int)
    requires WellFormed(a) && p in a.live
    ensures InLive(a.live - {p}, b) <==> InLive(a.live, b) && !a.live[p].extent.Has(b)
  {
    var l := a.live - {p};
    if q :| q in l && l[q].extent.Has(b) {
      assert a.live[q].extent.Has(b);
      assert Disjoint(a.live[q].extent, a.live[p].extent);
    }
    if q :| q in a.live && a.live[q].extent.Has(b) && !a.live[p].extent.Has(b) {
      assert l[q].extent.Has(b);
    }
  }

  // ------------------------------------------------------------------ init

  lemma InitialInv(base: int, len: int)
    requires Range(base, len)
    ensures Inv(Initial(base, len))
  {
    var a := Initial(base, len);
    forall b | base <= b < base + len ensures In(a.free, b) {
      assert a.free[0].Has(b);
    }
  }

  // ------------------------------------------------------------------ alloc

  /** In a canonical list a byte of chunk `k` is in no other chunk. */
  lemma OnlyOwner(s: seq<Chunk>, k: nat, b: int)
    requires Canonical(s) && k < |s| && s[k].Has(b)
    ensures !In(s[..k], b) && !In(s[k + 1..], b)
  {
    forall i | 0 <= i < |s| && i != k ensures !s[i].Has(b) {
      assert if i < k then s[i].End() < s[k].addr else s[k].End() < s[i].addr;
    }
    var t := s[k + 1..];
    forall i | 0 <= i < |t| ensures !t[i].Has(b) {
      assert t[i] == s[k + 1 + i];
    }
  }

  /** Replacing chunk `k` by what is left of it after taking `x` removes exactly the bytes of `x`. */
  lemma CarveBytes(s: seq<Chunk>, k: nat, m: seq<Chunk>, x: Chunk, b: int)
    requires Canonical(s) && k < |s|
    requires s[k].Has(b) <==> In(m, b) || x.Has(b)
    requires !(In(m, b) && x.Has(b))
    ensures In(Splice(s, k, k + 1, m), b) <==> In(s, b) && !x.Has(b)
  {
    InSplice(s, k, k + 1, m, b);
    InSplit(s, k, k + 1, b);
    assert s[k..k + 1] == [s[k]];
    assert In([s[k]], b) <==> [s[k]][0].Has(b);
    if s[k].Has(b) {
      OnlyOwner(s, k, b);
    }
  }

  lemma NeedBounds(size: int, alignment: int)
    requires size >= 0 && alignment >= 0
    ensures var n := Need(size, alignment);
      && n % 4 == (if alignment > 0 then Max(alignment, 16) % 4 else 0)
      && n >= CHUNK_HEADER && n >= size + HEADER + (if alignment > 0 then Max(alignment, 16) else 0)
  {
  }

  lemma AlignmentIsEven(alignment: int)
    requires ValidAlignment(alignment)
    ensures alignment > 0 ==> Max(alignment, 16) % 16 == 0
  {
    if alignment >= 16 {
      PowMultiple(alignment);
    }
  }

  /** Where a pointer into a chunk that is large enough lies, and that it is a multiple of 4. */
  lemma PlaceBounds(p: int, c: Chunk, size: int, alignment: int, need: int)
    requires ValidAlignment(alignment) && size >= 0 && alignment >= 0 && Sized(c)
    requires need == Need(size, alignment) <= c.len && IsPlace(p, c.addr, alignment)
    ensures Sized(Handed(c, need)) && Holds(p, Block(Handed(c, need), size))
    ensures forall i :: 0 <= i < |Rest(c, need)| ==> Sized(Rest(c, need)[i])
  {
    hide Need, ValidAlignment, Sized, Holds, Handed, Rest;
    NeedIsWords(size, alignment);
    NeedBounds(size, alignment);
    PlaceIsWord(p, c, alignment);
    PlaceArithmetic(p, c, size, need);
  }

  /** The room looked for is a number of words. */
  lemma NeedIsWords(size: int, alignment: int)
    requires ValidAlignment(alignment) && size >= 0 && alignment >= 0
    ensures Need(size, alignment) % 4 == 0
  {
    hide Need, ValidAlignment;
    NeedBounds(size, alignment);
    AlignmentIsEven(alignment);
    if alignment > 0 {
      SixteenIsFour(Max(alignment, 16));
    }
  }

  lemma PlaceIsWord(p: int, c: Chunk, alignment: int)
    requires ValidAlignment(alignment) && alignment >= 0 && Sized(c) && IsPlace(p, c.addr, alignment)
    ensures p % 4 == 0
  {
    hide ValidAlignment;
    AlignmentIsEven(alignment);
    if alignment > 0 {
      MultipleOfFour(p, Max(alignment, 16));
    } else {
      WordSum(c.addr, HEADER);
    }
  }

  lemma PlaceArithmetic(p: int, c: Chunk, size: int, need: int)
    requires Sized(c) && need % 4 == 0 && CHUNK_HEADER <= need <= c.len
    requires p % 4 == 0 && size >= 0 && c.addr + HEADER <= p && p + size <= c.addr + need
    ensures Sized(Handed(c, need)) && Holds(p, Block(Handed(c, need), size))
    ensures forall i :: 0 <= i < |Rest(c, need)| ==> Sized(Rest(c, need)[i])
  {
    WordSum(c.addr, need);
    WordSum(c.len, 0 - need);
  }

  lemma WordSum(x: int, y: int)
    requires x % 4 == 0 && y % 4 == 0
    ensures (x + y) % 4 == 0
  {
    var i, j := x / 4, y / 4;
    assert x + y == 4 * (i + j);
  }

  lemma SixteenIsFour(m: int)
    requires m % 16 == 0
    ensures m % 4 == 0
  {
  }

  lemma MultipleOfFour(p: int, m: int)
    requires m > 0 && m % 16 == 0 && p % m == 0
    ensures p % 4 == 0
  {
    var q, r := p / m, m / 16;
    assert p == m * q && m == 16 * r;
    Associate(16, r, q);
    FourTimes(p, r * q);
  }

  lemma FourTimes(p: int, n: int)
    requires p == 16 * n
    ensures p % 4 == 0
  {
  }

  lemma HandedBytes(c: Chunk, need: int, b: int)
    requires 0 < need <= c.len
    ensures c.Has(b) <==> In(Rest(c, need), b) || Handed(c, need).Has(b)
    ensures !(In(Rest(c, need), b) && Handed(c, need).Has(b))
  {
    if c.len > need + CHUNK_HEADER {
      assert In(Rest(c, need), b) <==> Rest(c, need)[0].Has(b);
    }
  }

  /** The pointer handed out was not in use. */
  lemma FreshPointer(a: Arena, k: nat, p: int)
    requires Inv(a) && k < |a.free| && a.free[k].addr + HEADER <= p <= a.free[k].End()
    ensures p !in a.live
  {
    if p in a.live {
      var e := a.live[p].extent;
      assert a.free[k].Has(p - 1) && e.Has(p - 1);
      assert In(a.free, p - 1) && InLive(a.live, p - 1);
      assert false;
    }
  }

  lemma SpliceSized(s: seq<Chunk>, i: nat, j: nat, m: seq<Chunk>, base: int, len: int)
    requires i <= j <= |s| && AllSized(s, base, len) && AllSized(m, base, len)
    ensures AllSized(Splice(s, i, j, m), base, len)
  {
    var t := Splice(s, i, j, m);
    forall n | 0 <= n < |t| ensures Sized(t[n]) && Inside(t[n], base, len) {
      assert t[n] == if n < i then s[n] else if n < i + |m| then m[n - i] else s[n - i - |m| + j];
    }
  }

  lemma TakenBytes(a: Arena, k: nat, size: int, need: int, p: int, a': Arena, b: int)
    requires Inv(a) && k < |a.free| && 0 < need <= a.free[k].len && p !in a.live && Taken(a, k, size, need, p, a')
    ensures In(a'.free, b) <==> In(a.free, b) && !Handed(a.free[k], need).Has(b)
    ensures InLive(a'.live, b) <==> InLive(a.live, b) || Handed(a.free[k], need).Has(b)
    ensures Handed(a.free[k], need).Has(b) ==> In(a.free, b)
  {
    var c := a.free[k];
    HandedBytes(c, need, b);
    CarveBytes(a.free, k, Rest(c, need), Handed(c, need), b);
    InLiveAdd(a.live, p, Block(Handed(c, need), size), b);
  }

  lemma TakenFree(a: Arena, k: nat, need: int)
    requires Inv(a) && k < |a.free| && 0 < need <= a.free[k].len
    requires forall i :: 0 <= i < |Rest(a.free[k], need)| ==> Sized(Rest(a.free[k], need)[i])
    ensures var t := Splice(a.free, k, k + 1, Rest(a.free[k], need)); Canonical(t) && AllSized(t, a.base, a.len)
  {
    SpliceCanonical(a.free, k, k + 1, Rest(a.free[k], need));
    assert Sized(a.free[k]) && Inside(a.free[k], a.base, a.len);
    SpliceSized(a.free, k, k + 1, Rest(a.free[k], need), a.base, a.len);
  }

  lemma TakenSums(a: Arena, k: nat, size: int, need: int, p: int, a': Arena)
    requires Inv(a) && k < |a.free| && 0 < need <= a.free[k].len && p !in a.live && Taken(a, k, size, need, p, a')
    ensures Sum(a'.free) == Sum(a.free) - Handed(a.free[k], need).len
    ensures SumLive(a'.live) == SumLive(a.live) + Handed(a.free[k], need).len
  {
    var c := a.free[k];
    SumSplice(a.free, k, k + 1, Rest(c, need));
    assert a.free[k..k + 1] == [c];
    SumLiveAdd(a.live, p, Block(Handed(c, need), size));
  }

  /** A chunk of free bytes is apart from every live block. */
  lemma FreeApartFromLive(a: Arena, c: Chunk, q: int)
    requires Inv(a) && q in a.live && c.len > 0 && forall b :: c.Has(b) ==> In(a.free, b)
    ensures Disjoint(c, a.live[q].extent)
  {
    var e := a.live[q].extent;
    if c.addr <= e.addr < c.End() {
      assert c.Has(e.addr) && e.Has(e.addr);
    } else if e.addr <= c.addr < e.End() {
      assert c.Has(c.addr) && e.Has(c.addr);
    }
  }

  lemma TakenWellFormed(a: Arena, k: nat, size: int, need: int, p: int, a': Arena)
    requires Inv(a) && k < |a.free| && 0 < need <= a.free[k].len && p !in a.live && Taken(a, k, size, need, p, a')
    requires Sized(Handed(a.free[k], need)) && Holds(p, Block(Handed(a.free[k], need), size))
    requires forall i :: 0 <= i < |Rest(a.free[k], need)| ==> Sized(Rest(a.free[k], need)[i])
    ensures WellFormed(a')
  {
    var h := Handed(a.free[k], need);
    TakenFree(a, k, need);
    forall b | h.Has(b) ensures In(a.free, b) {
      TakenBytes(a, k, size, need, p, a', b);
    }
    forall q | q in a.live ensures Disjoint(h, a.live[q].extent) {
      FreeApartFromLive(a, h, q);
    }
    assert Sized(a.free[k]) && Inside(a.free[k], a.base, a.len);
  }

  lemma TakenPartition(a: Arena, k: nat, size: int, need: int, p: int, a': Arena)
    requires Inv(a) && k < |a.free| && 0 < need <= a.free[k].len && p !in a.live && Taken(a, k, size, need, p, a')
    ensures Exclusive(a') && Covered(a')
  {
    forall b {
      TakenBytes(a, k, size, need, p, a', b);
    }
  }

  lemma TakenInv(a: Arena, k: nat, size: int, alignment: int, p: int, a': Arena)
    requires Inv(a) && size >= 0 && alignment >= 0 && ValidAlignment(alignment)
    requires var need := Need(size, alignment);
      FirstFit(a.free, k, need) && IsPlace(p, a.free[k].addr, alignment) && Taken(a, k, size, need, p, a')
    ensures Inv(a') && p !in a.live && p != NULL
  {
    var c, need := a.free[k], Need(size, alignment);
    NeedBounds(size, alignment);
    PlaceBounds(p, c, size, alignment, need);
    FreshPointer(a, k, p);
    TakenWellFormed(a, k, size, need, p, a');
    TakenPartition(a, k, size, need, p, a');
    TakenSums(a, k, size, need, p, a');
  }

  /** Allocation keeps the invariant. */
  lemma AllocInv(a: Arena, size: int, alignment: int, p: int, a': Arena)
    requires Inv(a) && size >= 0 && alignment >= 0 && AllocStep(a, size, alignment, p, a')
    ensures Inv(a')
  {
    if p != NULL {
      var k: nat :| FirstFit(a.free, k, Need(size, alignment)) && IsPlace(p, a.free[k].addr, alignment)
                    && Taken(a, k, size, Need(size, alignment), p, a');
      TakenInv(a, k, size, alignment, p, a');
    }
  }

  // ------------------------------------------------------------------ free

  /** The only outcome of freeing `p`: the block joined with the neighbours it touches. */
  lemma FreeIsJoin(a: Arena, p: int, a': Arena) returns (k: nat)
    requires Inv(a) && p != NULL && FreeStep(a, p, a')
    ensures Fits(a.free, k, a.live[p].extent) && a'.free == Join(a.free, k, a.live[p].extent)
  {
    var c := a.live[p].extent;
    forall b | c.Has(b) ensures !In(a.free, b) {
      assert InLive(a.live, b);
    }
    k := PlaceExists(a.free, c);
    JoinIsTheOnly(a.free, k, c, a'.free);
  }

  lemma JoinSized(s: seq<Chunk>, k: nat, c: Chunk, base: int, len: int)
    requires Fits(s, k, c) && Sized(c) && Inside(c, base, len) && AllSized(s, base, len)
    ensures AllSized(Join(s, k, c), base, len)
  {
    hide AllSized, Splice;
    JoinedSized(s, k, c, base, len);
    SpliceSized(s, JoinFrom(s, k, c), JoinTo(s, k, c), [Joined(s, k, c)], base, len);
  }

  lemma JoinedSized(s: seq<Chunk>, k: nat, c: Chunk, base: int, len: int)
    requires Fits(s, k, c) && Sized(c) && Inside(c, base, len) && AllSized(s, base, len)
    ensures AllSized([Joined(s, k, c)], base, len)
  {
    hide Sized;
    var left := if TouchesLeft(s, k, c) then Chunk(s[k - 1].addr, s[k - 1].len + c.len) else c;
    if TouchesLeft(s, k, c) {
      assert Sized(s[k - 1]) && Inside(s[k - 1], base, len);
      Extended(s[k - 1], c);
    }
    assert Sized(left);
    if TouchesRight(s, k, c) {
      assert Sized(s[k]) && Inside(s[k], base, len);
      Extended(left, s[k]);
    }
    assert Sized(Joined(s, k, c));
  }

  /** Two chunks in one. */
  lemma Extended(c: Chunk, d: Chunk)
    requires Sized(c) && Sized(d)
    ensures Sized(Chunk(c.addr, c.len + d.len)) && d.len > 0
  {
    var i, j := c.len / 4, d.len / 4;
    assert c.len + d.len == 4 * (i + j);
  }

  /** Freeing keeps the invariant. */
  lemma FreeInv(a: Arena, p: int, a': Arena)
    requires Inv(a) && FreeStep(a, p, a')
    ensures Inv(a')
  {
    if p != NULL {
      var c := a.live[p].extent;
      var k := FreeIsJoin(a, p, a');
      JoinSized(a.free, k, c, a.base, a.len);
      JoinSum(a.free, k, c);
      SumLiveRemove(a.live, p);
      forall b {
        InLiveRemove(a, p, b);
      }
      assert Exclusive(a') by {
        forall b | c.Has(b) ensures !In(a.trimmed, b) {
          assert InLive(a.live, b);
        }
      }
    }
  }

  lemma ReallocInv(a: Arena, p: int, size: int, q: int, a': Arena)
    requires Inv(a) && size >= 0 && ReallocStep(a, p, size, q, a')
    ensures Inv(a')
  {
    if p == NULL {
      AllocInv(a, size, 0, q, a');
    } else if size == 0 {
      FreeInv(a, p, a');
    } else {
      var m :| AllocStep(a, size, 0, q, m) && if q == NULL then a' == m else FreeStep(m, p, a');
      AllocInv(a, size, 0, q, m);
      if q != NULL {
        FreeInv(m, p, a');
      }
    }
  }
}
