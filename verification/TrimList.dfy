/**
 miniheap_trim on the list in memory: which pages of a chunk go, and how its leftovers are put back.
 */
module TrimList {
  import opened Lists
  import opened Chunks
  import opened Rounding
  import opened Arena
  import opened Trim
  import opened FreeList

  /** Chunk `m` of a free list of the arena is being looked at. */
  ghost predicate Trimming(limit: int, list: int, base: int, len: int, t: seq<Chunk>, m: nat) {
    && Range(base, len) && SentinelOutside(limit, list, base, len) && Canonical(t) && AllSized(t, base, len) && m < |t|
  }

  function BelowOf(c: Chunk): Chunk {
    Chunk(c.addr, TrimLo(c) - c.addr)
  }

  function AboveOf(c: Chunk): Chunk {
    Chunk(TrimHi(c), c.End() - TrimHi(c))
  }

  lemma PageRounding(x: nat)
    requires x <= WORD - PAGE_SIZE
    ensures RoundUp(x, PAGE_SIZE) == PageUp(x) && RoundDown(x, PAGE_SIZE) == PageDown(x)
  {
    hide PageUp, PageDown, RoundUp, RoundDown;
    SmallPowers();
    RoundUpLeast(x, PAGE_SIZE);
    RoundDownGreatest(x, PAGE_SIZE);
    PageFacts(x);
    SamePage(RoundUp(x, PAGE_SIZE), PageUp(x), x);
    SamePage(RoundDown(x, PAGE_SIZE), PageDown(x), x - (PAGE_SIZE - 1));
  }

  lemma SamePage(p: int, q: int, x: int)
    requires p % PAGE_SIZE == 0 && q % PAGE_SIZE == 0 && x <= p < x + PAGE_SIZE && x <= q < x + PAGE_SIZE
    ensures p == q
  {
  }

  /** The page range miniheap_trim settles on, retrying with one page less at either end. */
  method FindPages(start: int, end: int, ghost c: Chunk) returns (lo: int, hi: int)
    requires c == Chunk(start, end - start) && 0 < start <= end <= WORD - PAGE_SIZE
    ensures hi > lo <==> HasPages(c)
    ensures hi > lo ==> lo == TrimLo(c) && hi == TrimHi(c)
  {
    PageRounding(start);
    PageRounding(end);
    lo, hi := RoundUp(start, PAGE_SIZE), RoundDown(end, PAGE_SIZE);
    while hi > lo
      invariant lo == PageUp(start) || lo == TrimLo(c)
      invariant hi == PageDown(end) || hi == TrimHi(c)
      invariant lo <= TrimLo(c) && TrimHi(c) <= hi
      decreases hi - lo
    {
      if lo != start && lo - start < CHUNK_HEADER {
        lo := lo + PAGE_SIZE;
      } else if hi < end && end - hi < CHUNK_HEADER {
        hi := hi - PAGE_SIZE;
      } else {
        break;
      }
    }
  }

  /** Cutting chunk `m` into two adjacent pieces keeps the list in order. */
  lemma CutOrdered(t: seq<Chunk>, m: nat, x: Chunk, y: Chunk)
    requires Canonical(t) && m < |t| && t[m].addr <= x.addr && x.End() <= y.addr && y.End() <= t[m].End()
    requires 0 < x.len && 0 < y.len
    ensures Ordered(Splice(t, m, m + 1, [x, y]))
  {
  }

  lemma HeadSized(c: Chunk)
    requires Sized(c) && HasPages(c)
    ensures Sized(Chunk(c.addr, TrimHi(c) - c.addr))
  {
    hide TrimLo, TrimHi;
    TrimFits(c);
    WordGap(c, TrimLo(c), TrimHi(c));
    NextPage(TrimHi(c), TrimLo(c));
    Words(c.addr, 0, TrimHi(c), 0);
  }

  /** A list whose chunk `m` keeps its address but shrinks holds the same list words. */
  lemma WithinChunk(w: seq<int>, w': seq<int>, list: int, base: int, len: int, t: seq<Chunk>, m: nat, u: seq<Chunk>)
    requires Trimming(|w|, list, base, len, t, m) && AllSized(u, base, len) && BytesIn(u, t) && OnlyListWords(w, w', list, u)
    ensures WritesWithin(w, w', list, t)
  {
  }

  /** Pieces of chunk `m` in its place are bytes of the list. */
  lemma PieceBytes(t: seq<Chunk>, m: nat, pieces: seq<Chunk>)
    requires m < |t| && forall i :: 0 <= i < |pieces| ==> t[m].addr <= pieces[i].addr && pieces[i].End() <= t[m].End()
    ensures BytesIn(Splice(t, m, m + 1, pieces), t)
  {
  }

  /** The chunk up to the end of its last trimmed page. */
  function HeadOf(c: Chunk): Chunk {
    Chunk(c.addr, TrimHi(c) - c.addr)
  }

  lemma TailPieces(c: Chunk, base: int, len: int)
    requires Sized(c) && Inside(c, base, len) && HasPages(c) && TrimHi(c) < c.End()
    ensures AllSized([HeadOf(c), AboveOf(c)], base, len) && HeadOf(c).End() == AboveOf(c).addr && AboveOf(c).End() == c.End()
    ensures c.Has(TrimHi(c) + LEN) && TrimHi(c) + CHUNK_HEADER <= c.End()
  {
    TrimFits(c);
    PieceSized(c);
    HeadSized(c);
  }

  /** The list with the tail of chunk `m` cut off as a chunk of its own can be laid out. */
  lemma TailShape(limit: int, list: int, base: int, len: int, t: seq<Chunk>, m: nat)
    requires Trimming(limit, list, base, len, t, m) && HasPages(t[m]) && TrimHi(t[m]) < t[m].End()
    ensures var u := Splice(t, m, m + 1, [HeadOf(t[m]), AboveOf(t[m])]);
      && Insert(t[m := HeadOf(t[m])], m + 1, AboveOf(t[m])) == u
      && Laid(limit, list, u) && AllSized(u, base, len) && BytesIn(u, t)
    ensures 0 < TrimHi(t[m]) && TrimHi(t[m]) + CHUNK_HEADER <= limit && t[m].Has(TrimHi(t[m]) + LEN)
  {
    hide HasPages, TrimHi, TrimLo, Laid, In, Ordered, Canonical, Splice, AllSized, BytesIn, Insert, Sized;
    var c := t[m];
    var x, y := HeadOf(c), AboveOf(c);
    TrimmingAt(limit, list, base, len, t, m);
    TailPieces(c, base, len);
    NotEmpty(x, y, base, len);
    SpliceSized(t, m, m + 1, [x, y], base, len);
    CutOrdered(t, m, x, y);
    CanonicalLaid(Splice(t, m, m + 1, [x, y]), base, len, limit, list);
    PieceBytes(t, m, [x, y]);
    InsertBehind(t, m, x, y);
  }

  lemma NotEmpty(x: Chunk, y: Chunk, base: int, len: int)
    requires AllSized([x, y], base, len)
    ensures 0 < x.len && 0 < y.len
  {
    assert Sized([x, y][0]) && Sized([x, y][1]);
  }

  lemma InsertBehind(t: seq<Chunk>, m: nat, x: Chunk, y: Chunk)
    requires m < |t|
    ensures Insert(t[m := x], m + 1, y) == Splice(t, m, m + 1, [x, y])
  {
  }

  /** Trims the tail off the chunk and links it in as a chunk of its own. */
  method SplitTail(ram: array<int>, list: int, chunk: int, hi: int, ghost base: int, ghost len: int,
                   ghost t: seq<Chunk>, ghost m: nat)
    requires m < |t| && Trimming(ram.Length, list, base, len, t, m) && Stored(ram[..], list, t) && chunk == t[m].addr
    requires HasPages(t[m]) && hi == TrimHi(t[m]) < t[m].End()
    modifies ram
    ensures Stored(ram[..], list, Splice(t, m, m + 1, [HeadOf(t[m]), AboveOf(t[m])]))
    ensures WritesWithin(old(ram[..]), ram[..], list, t)
  {
    hide Stored, Trimming, WritesWithin, OnlyListWords, Splice, Insert, Laid, BytesIn, AllSized;
    ghost var x, y := HeadOf(t[m]), AboveOf(t[m]);
    ghost var v, u := t[m := x], Splice(t, m, m + 1, [x, y]);
    TailShape(ram.Length, list, base, len, t, m);
    LengthAt(ram[..], list, t, m);
    var newSize := chunk + ram[chunk + LEN] - hi;
    SetLen(ram, chunk, ram[chunk + LEN] - newSize, list, t, m);
    ghost var w := ram[..];
    WithinChunkItself(old(ram[..]), w, list, base, len, t, m);
    ram[hi + LEN] := newSize;
    ghost var w2 := ram[..];
    NewLen(w, w2, list, v, m + 1, y);
    WithinOne(w, w2, list, t, m, hi + LEN, newSize);
    WithinTrans(old(ram[..]), w, w2, list, t);
    TailNode(list, t, m, x);
    AddAfter(ram, chunk, hi, list, v, m + 1, y);
    WithinChunk(w2, ram[..], list, base, len, t, m, u);
    WithinTrans(old(ram[..]), w2, ram[..], list, t);
  }

  lemma WithinChunkItself(w: seq<int>, w': seq<int>, list: int, base: int, len: int, t: seq<Chunk>, m: nat)
    requires Trimming(|w|, list, base, len, t, m) && OnlyListWords(w, w', list, t)
    ensures WritesWithin(w, w', list, t)
  {
  }

  lemma TailNode(list: int, t: seq<Chunk>, m: nat, x: Chunk)
    requires m < |t| && x.addr == t[m].addr
    ensures m + 1 <= |t[m := x]| && t[m].addr == NodeAt(list, t[m := x], m + 1)
  {
  }

  lemma WithinOne(w: seq<int>, w': seq<int>, list: int, t: seq<Chunk>, m: nat, a: int, x: int)
    requires m < |t| && t[m].Has(a) && 0 <= a < |w| && w' == w[a := x]
    ensures WritesWithin(w, w', list, t)
  {
  }

  /** Writing the length of a chunk about to be linked in. */
  lemma NewLen(w: seq<int>, w': seq<int>, list: int, v: seq<Chunk>, k: nat, y: Chunk)
    requires k <= |v| && Stored(w, list, v) && Laid(|w|, list, Insert(v, k, y))
    requires 0 < y.addr && y.addr + CHUNK_HEADER <= |w| && w' == w[y.addr + LEN := y.len]
    ensures Stored(w', list, v) && LensAt(w', Insert(v, k, y))
  {
    hide Stored, ListWord;
    NewHeaderIsFree(|w|, list, v, k, y);
    StoredFrame(w, w', list, v);
    InsertLens(w', list, v, k, y);
  }

  /** When a list with `y` inserted can be laid out, the header of `y` holds no word of the list without it. */
  lemma NewHeaderIsFree(limit: int, list: int, v: seq<Chunk>, k: nat, y: Chunk)
    requires k <= |v| && Laid(limit, list, Insert(v, k, y))
    ensures !ListWord(list, v, y.addr + LEN)
  {
    var u := Insert(v, k, y);
    assert u[k] == y;
    forall i | 0 <= i < |v| ensures !(v[i].addr <= y.addr + LEN < v[i].addr + CHUNK_HEADER) {
      assert v[i] == u[if i < k then i else i + 1];
    }
  }

  /** The sequence edits behind trimming chunk `m`. */
  lemma TrimEdits(t: seq<Chunk>, m: nat, x: Chunk, y: Chunk, z: Chunk)
    requires m < |t|
    ensures Remove(t, m) == Splice(t, m, m + 1, [])
    ensures t[m := z] == Splice(t, m, m + 1, [z])
    ensures |Splice(t, m, m + 1, [x, y])| == |t| + 1 && Splice(t, m, m + 1, [x, y])[m] == x
    ensures Remove(Splice(t, m, m + 1, [x, y]), m) == Splice(t, m, m + 1, [y])
    ensures Splice(t, m, m + 1, [x, y])[m := z] == Splice(t, m, m + 1, [z, y])
  {
  }

  /** What the leftovers of a chunk with pages are, case by case. */
  lemma LeftoverCases(c: Chunk)
    requires Sized(c) && HasPages(c)
    ensures c.addr <= TrimLo(c) && TrimHi(c) <= c.End()
    ensures TrimLo(c) == c.addr && TrimHi(c) == c.End() ==> Leftovers(c) == []
    ensures TrimLo(c) == c.addr && TrimHi(c) < c.End() ==> Leftovers(c) == [AboveOf(c)]
    ensures TrimLo(c) > c.addr && TrimHi(c) == c.End() ==> Leftovers(c) == [BelowOf(c)]
    ensures TrimLo(c) > c.addr && TrimHi(c) < c.End() ==> Leftovers(c) == [BelowOf(c), AboveOf(c)]
    ensures TrimHi(c) == c.End() ==> HeadOf(c) == c
  {
  }

  lemma TrimmingAt(limit: int, list: int, base: int, len: int, t: seq<Chunk>, m: nat)
    requires Trimming(limit, list, base, len, t, m)
    ensures Sized(t[m]) && Inside(t[m], base, len) && 0 < t[m].addr && t[m].End() <= WORD - PAGE_SIZE
  {
  }

  /** The list words of the list with its tail cut off are list bytes. */
  lemma CutWithin(w: seq<int>, w': seq<int>, list: int, base: int, len: int, t: seq<Chunk>, m: nat)
    requires Trimming(|w|, list, base, len, t, m) && HasPages(t[m]) && TrimHi(t[m]) < t[m].End()
    requires OnlyListWords(w, w', list, Splice(t, m, m + 1, [HeadOf(t[m]), AboveOf(t[m])]))
    ensures WritesWithin(w, w', list, t)
  {
    hide WritesWithin, OnlyListWords, Splice;
    TailShape(|w|, list, base, len, t, m);
    WithinChunk(w, w', list, base, len, t, m, Splice(t, m, m + 1, [HeadOf(t[m]), AboveOf(t[m])]));
  }

  /** Drops the whole chunk, or shortens it to what lies below the pages. */
  method DropPages(ram: array<int>, list: int, chunk: int, lo: int, hi: int, ghost t: seq<Chunk>, ghost m: nat,
                   ghost c: Chunk)
    requires m < |t| && Stored(ram[..], list, t) && t[m] == HeadOf(c) && chunk == c.addr && lo == TrimLo(c) && hi == TrimHi(c)
    modifies ram
    ensures lo == chunk ==> Stored(ram[..], list, Remove(t, m))
    ensures lo != chunk ==> Stored(ram[..], list, t[m := BelowOf(c)])
    ensures OnlyListWords(old(ram[..]), ram[..], list, t)
  {
    hide Stored, OnlyListWords, TrimLo, TrimHi;
    LengthAt(ram[..], list, t, m);
    if lo == chunk {
      Unlink(ram, chunk, list, t, m);
    } else {
      SetLen(ram, chunk, ram[chunk + LEN] - (hi - lo), list, t, m);
    }
  }

  /** Takes the pages `lo..hi` out of the chunk: splits off what lies above them, then drops or shortens the chunk. */
  method CutPages(ram: array<int>, list: int, chunk: int, lo: int, hi: int, ghost base: int, ghost len: int,
                  ghost t: seq<Chunk>, ghost m: nat)
    requires m < |t| && Trimming(ram.Length, list, base, len, t, m) && Stored(ram[..], list, t) && chunk == t[m].addr
    requires HasPages(t[m]) && lo == TrimLo(t[m]) && hi == TrimHi(t[m])
    modifies ram
    ensures Stored(ram[..], list, Splice(t, m, m + 1, Leftovers(t[m])))
    ensures WritesWithin(old(ram[..]), ram[..], list, t)
  {
    hide Stored, WritesWithin, OnlyListWords, Splice, Trimming, TrimLo, TrimHi, Leftovers, Remove, HasPages;
    ghost var c := t[m];
    ghost var x, y, z := HeadOf(c), AboveOf(c), BelowOf(c);
    TrimmingAt(ram.Length, list, base, len, t, m);
    LengthAt(ram[..], list, t, m);
    TrimEdits(t, m, x, y, z);
    LeftoverCases(c);
    var end := chunk + ram[chunk + LEN];
    if hi < end {
      SplitTail(ram, list, chunk, hi, base, len, t, m);
      ghost var w := ram[..];
      DropPages(ram, list, chunk, lo, hi, Splice(t, m, m + 1, [x, y]), m, c);
      CutWithin(w, ram[..], list, base, len, t, m);
      WithinTrans(old(ram[..]), w, ram[..], list, t);
    } else {
      DropPages(ram, list, chunk, lo, hi, t, m, c);
      WithinChunkItself(old(ram[..]), ram[..], list, base, len, t, m);
    }
  }

  /** Looks at one chunk of the free list; `freed` is the number of bytes that went back to the page allocator. */
  method TrimChunk(ram: array<int>, list: int, chunk: int, ghost base: int, ghost len: int,
                   ghost t: seq<Chunk>, ghost m: nat) returns (freed: int)
    requires m < |t| && Trimming(ram.Length, list, base, len, t, m) && Stored(ram[..], list, t) && chunk == t[m].addr
    modifies ram
    ensures Stored(ram[..], list, Splice(t, m, m + 1, Leftovers(t[m])))
    ensures freed == Sum(Pages(t[m]))
    ensures WritesWithin(old(ram[..]), ram[..], list, t)
  {
    hide Stored, WritesWithin, Splice, Trimming, TrimLo, TrimHi;
    TrimmingAt(ram.Length, list, base, len, t, m);
    LengthAt(ram[..], list, t, m);
    TrimEdits(t, m, t[m], t[m], t[m]);
    WithinSame(ram[..], list, t);
    assert t[m := t[m]] == t;
    var lo, hi := FindPages(chunk, chunk + ram[chunk + LEN], t[m]);
    freed := 0;
    if hi > lo {
      freed := hi - lo;
      CutPages(ram, list, chunk, lo, hi, base, len, t, m);
    }
  }

  // ------------------------------------------------------------------ the whole list

  /** The free list when the chunks before `k` have been looked at. */
  function Progress(s: seq<Chunk>, k: nat): seq<Chunk>
    requires k <= |s|
  {
    TrimFree(s[..k]) + s[k..]
  }

  function Done(s: seq<Chunk>, k: nat): nat
    requires k <= |s|
  {
    |TrimFree(s[..k])|
  }

  /** The address of chunk `k`, or the sentinel past the end. */
  function AddrAt(list: int, s: seq<Chunk>, k: nat): int {
    if k < |s| then s[k].addr else list
  }

  lemma SpliceMiddle(p: seq<Chunk>, c: Chunk, q: seq<Chunk>, m: seq<Chunk>)
    ensures (p + [c] + q)[|p|] == c && Splice(p + [c] + q, |p|, |p| + 1, m) == p + m + q
  {
  }

  lemma ProgressStep(s: seq<Chunk>, k: nat)
    requires k < |s|
    ensures Done(s, k) < |Progress(s, k)| && Progress(s, k)[Done(s, k)] == s[k]
    ensures Splice(Progress(s, k), Done(s, k), Done(s, k) + 1, Leftovers(s[k])) == Progress(s, k + 1)
    ensures TrimPages(s[..k + 1]) == TrimPages(s[..k]) + Pages(s[k])
  {
    hide Splice, Leftovers, Pages;
    assert s[..k + 1][..k] == s[..k];
    assert s[k..] == [s[k]] + s[k + 1..];
    var p, q := TrimFree(s[..k]), s[k + 1..];
    assert p + s[k..] == p + [s[k]] + q;
    SpliceMiddle(p, s[k], q, Leftovers(s[k]));
  }

  lemma ProgressStart(s: seq<Chunk>)
    ensures Progress(s, 0) == s && TrimPages(s[..0]) == []
  {
  }

  lemma ProgressEnd(s: seq<Chunk>)
    ensures Progress(s, |s|) == TrimFree(s) && TrimPages(s[..|s|]) == TrimPages(s)
  {
    hide TrimFree, TrimPages;
    assert s[..|s|] == s && s[|s|..] == [];
    assert Progress(s, |s|) == TrimFree(s);
  }

  lemma AppendRest(t: seq<Chunk>, s: seq<Chunk>, k: nat, base: int, len: int)
    requires k <= |s| && Canonical(s) && Canonical(t) && Until(t, if k == 0 then base else s[k - 1].End())
    requires AllSized(s, base, len) && AllSized(t, base, len) && (k == 0 ==> t == [])
    ensures Canonical(t + s[k..]) && AllSized(t + s[k..], base, len)
  {
    hide Sized, Inside;
    assert k > 0 && k < |s| ==> s[k - 1].End() < s[k].addr;
    CanonicalConcat(t, s[k..]);
  }

  /** On the way the list stays canonical, and within the bytes it started with. */
  lemma ProgressShape(s: seq<Chunk>, k: nat, base: int, len: int)
    requires k <= |s| && Canonical(s) && AllSized(s, base, len)
    ensures Canonical(Progress(s, k)) && AllSized(Progress(s, k), base, len) && BytesIn(Progress(s, k), s)
  {
    hide TrimFree, In, Sized, Inside, BytesIn;
    TrimCanonical(s[..k], base, len);
    TrimSized(s[..k], base, len);
    if k == 0 {
      TrimNothing(s[..k]);
    }
    AppendRest(TrimFree(s[..k]), s, k, base, len);
    ProgressBytes(s, k);
  }

  lemma ProgressBytes(s: seq<Chunk>, k: nat)
    requires k <= |s| && Canonical(s)
    ensures BytesIn(Progress(s, k), s)
  {
    hide TrimFree, TrimPages, In;
    assert s == s[..k] + s[k..];
    forall b ensures In(Progress(s, k), b) ==> In(s, b) {
      TrimBytes(s[..k], b);
      InConcat(TrimFree(s[..k]), s[k..], b);
      InConcat(s[..k], s[k..], b);
    }
  }

  /** The node after chunk `k`, whatever became of the chunks before it. */
  lemma ProgressNext(w: seq<int>, list: int, s: seq<Chunk>, k: nat)
    requires k < |s| && Stored(w, list, Progress(s, k))
    ensures 0 < s[k].addr && s[k].addr + CHUNK_HEADER <= |w| && w[s[k].addr + NEXT] == AddrAt(list, s, k + 1)
  {
    hide TrimFree, Splice;
    var t, m := Progress(s, k), Done(s, k);
    ProgressStep(s, k);
    CycleNode(list, t, m + 1);
    CycleNode(list, t, m + 2);
    assert w[Cycle(list, Addrs(t))[m + 1] + NEXT] == Cycle(list, Addrs(t))[m + 2];
    assert m + 1 < |t| ==> t[m + 1] == s[k + 1];
  }

  lemma ProgressTrimming(limit: int, list: int, base: int, len: int, s: seq<Chunk>, k: nat)
    requires k < |s| && Canonical(s) && AllSized(s, base, len) && Range(base, len) && SentinelOutside(limit, list, base, len)
    ensures Trimming(limit, list, base, len, Progress(s, k), Done(s, k)) && s[k].addr != list
  {
    ProgressShape(s, k, base, len);
    ProgressStep(s, k);
    assert Sized(s[k]) && Inside(s[k], base, len);
  }

  /**
   Walks the whole list with `list_for_every_entry_safe`. `freed` sums up what went back to the page allocator; `visited`
   records the chunks in the order the walk looks at them.
   */
  method TrimAll(ram: array<int>, list: int, ghost base: int, ghost len: int, ghost s: seq<Chunk>)
    returns (freed: int, ghost visited: seq<int>)
    requires Range(base, len) && SentinelOutside(ram.Length, list, base, len) && Canonical(s) && AllSized(s, base, len)
    requires Stored(ram[..], list, s)
    modifies ram
    ensures Stored(ram[..], list, TrimFree(s)) && freed == Sum(TrimPages(s)) && visited == Addrs(s)
    ensures WritesWithin(old(ram[..]), ram[..], list, s)
  {
    hide Stored, WritesWithin, TrimFree, TrimPages, Canonical, AllSized, Progress, Done, Leftovers, Trimming, Pages;
    ghost var k := 0;
    ProgressStart(s);
    ProgressEnd(s);
    WithinSame(ram[..], list, s);
    freed, visited := 0, [];
    var chunk := First(ram, list, s);
    var next := Second(ram, list, chunk, s);
    while chunk != list
      invariant k <= |s| && chunk == AddrAt(list, s, k) && (k < |s| ==> next == AddrAt(list, s, k + 1))
      invariant k < |s| ==> chunk != list
      invariant Stored(ram[..], list, Progress(s, k)) && freed == Sum(TrimPages(s[..k]))
      invariant WritesWithin(old(ram[..]), ram[..], list, s)
      invariant visited == Addrs(s)[..k]
      decreases |s| - k
    {
      ghost var w := ram[..];
      ProgressTrimming(ram.Length, list, base, len, s, k);
      ProgressStep(s, k);
      ProgressShape(s, k, base, len);
      var n := TrimChunk(ram, list, chunk, base, len, Progress(s, k), Done(s, k));
      SumConcat(TrimPages(s[..k]), Pages(s[k]));
      freed := freed + n;
      WithinSubset(w, ram[..], list, Progress(s, k), s);
      WithinTrans(old(ram[..]), w, ram[..], list, s);
      visited := visited + [chunk];
      k := k + 1;
      chunk := next;
      next := Following(ram, list, chunk, base, len, s, k);
    }
  }

  /** `(list)->next`. */
  method First(ram: array<int>, list: int, ghost s: seq<Chunk>) returns (chunk: int)
    requires Stored(ram[..], list, s)
    ensures chunk == AddrAt(list, s, 0) && (0 < |s| ==> chunk != list)
  {
    CycleNode(list, s, 0);
    CycleNode(list, s, 1);
    assert ram[..][Cycle(list, Addrs(s))[0] + NEXT] == Cycle(list, Addrs(s))[1];
    chunk := ram[list + NEXT];
  }

  method Second(ram: array<int>, list: int, chunk: int, ghost s: seq<Chunk>) returns (next: int)
    requires Stored(ram[..], list, s) && chunk == AddrAt(list, s, 0)
    ensures 0 < |s| ==> next == AddrAt(list, s, 1)
  {
    hide Stored, Progress;
    ProgressStart(s);
    if 0 < |s| {
      ProgressNext(ram[..], list, s, 0);
    }
    InMemory(ram[..], list, s);
    next := ram[chunk + NEXT];
  }

  lemma InMemory(w: seq<int>, list: int, s: seq<Chunk>)
    requires Stored(w, list, s)
    ensures 0 < list && list + NODE_SIZE <= |w|
  {
  }

  /** The lookahead of the safe iteration, read after the chunk before was trimmed. */
  method Following(ram: array<int>, list: int, chunk: int, ghost base: int, ghost len: int, ghost s: seq<Chunk>, ghost k: nat)
    returns (next: int)
    requires k <= |s| && Stored(ram[..], list, Progress(s, k)) && chunk == AddrAt(list, s, k)
    requires Range(base, len) && SentinelOutside(ram.Length, list, base, len) && Canonical(s) && AllSized(s, base, len)
    ensures k < |s| ==> next == AddrAt(list, s, k + 1) && chunk != list
  {
    hide Canonical, AllSized, Progress, Ring;
    if k < |s| {
      ProgressNext(ram[..], list, s, k);
      ProgressTrimming(ram.Length, list, base, len, s, k);
    }
    next := ram[chunk + NEXT];
  }
}
