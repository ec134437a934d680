/**
 The free list in memory: each chunk starts with its list node and, behind it, its length (struct free_heap_chunk).
 The list operations of include/list.h are lifted here from node addresses to chunks.
 */
module FreeList {
  import opened Lists
  import opened Chunks
  import opened Arena

  /** Offset of the `len` field. */
  const LEN := 8

  function Addrs(s: seq<Chunk>): seq<int> {
    seq(|s|, i requires 0 <= i < |s| => s[i].addr)
  }

  predicate OffSentinel(list: int, addr: int) {
    list + NODE_SIZE <= addr || addr + CHUNK_HEADER <= list
  }

  /** The chunk headers are in memory, in address order, without overlap, and away from the sentinel. */
  ghost predicate Laid(limit: int, list: int, s: seq<Chunk>) {
    && 0 < list && list + NODE_SIZE <= limit
    && (forall i :: 0 <= i < |s| ==> 0 < s[i].addr && s[i].addr + CHUNK_HEADER <= limit && OffSentinel(list, s[i].addr))
    && (forall i, j :: 0 <= i < j < |s| ==> s[i].addr + CHUNK_HEADER <= s[j].addr)
  }

  ghost predicate LensAt(w: seq<int>, s: seq<Chunk>)
    requires forall i :: 0 <= i < |s| ==> 0 < s[i].addr && s[i].addr + CHUNK_HEADER <= |w|
  {
    forall i :: 0 <= i < |s| ==> w[s[i].addr + LEN] == s[i].len
  }

  /** Memory `w` holds the free list `s` under the sentinel at `list`. */
  ghost predicate Stored(w: seq<int>, list: int, s: seq<Chunk>) {
    Laid(|w|, list, s) && Ring(w, list, Addrs(s)) && LensAt(w, s)
  }

  /** `a` is a word of the sentinel or of a chunk header. */
  ghost predicate ListWord(list: int, s: seq<Chunk>, a: int) {
    a == list || a == list + NEXT || exists i :: 0 <= i < |s| && s[i].addr <= a < s[i].addr + CHUNK_HEADER
  }

  /** Nothing but words of the sentinel and of the headers of `s` differs. */
  ghost predicate OnlyListWords(w: seq<int>, w': seq<int>, list: int, s: seq<Chunk>) {
    |w'| == |w| && forall a :: 0 <= a < |w| && !ListWord(list, s, a) ==> w'[a] == w[a]
  }

  /** The node at position `i` of the ring: the sentinel at both ends, chunk `i - 1` in between. */
  function NodeAt(list: int, s: seq<Chunk>, i: nat): int {
    if 1 <= i <= |s| then s[i - 1].addr else list
  }

  lemma CycleNode(list: int, s: seq<Chunk>, i: nat)
    requires i <= |s| + 1
    ensures Cycle(list, Addrs(s))[i] == NodeAt(list, s, i)
  {
  }

  lemma LaidPlaced(limit: int, list: int, s: seq<Chunk>)
    requires Laid(limit, list, s)
    ensures Placed(limit, Cycle(list, Addrs(s)))
  {
    var c := Cycle(list, Addrs(s));
    forall i | 0 <= i < |c| ensures c[i] == NodeAt(list, s, i) {
      CycleNode(list, s, i);
    }
  }

  /** Linking and unlinking nodes of a laid-out list writes no length and nothing outside the list's words. */
  lemma LinksKeepLens(w: seq<int>, w': seq<int>, list: int, t: seq<Chunk>, item: int, p: int, n: int)
    requires Laid(|w|, list, t) && OnlyLinks(w, w', item, p, n)
    requires item in Addrs(t) && (p == list || p in Addrs(t)) && (n == list || n in Addrs(t))
    ensures forall i :: 0 <= i < |t| ==> w'[t[i].addr + LEN] == w[t[i].addr + LEN]
    ensures OnlyListWords(w, w', list, t)
  {
  }

  /** Adds chunk `c` before the ring node `entry`, the one at position `k + 1`. */
  method AddBefore(ram: array<int>, entry: int, item: int, ghost list: int, ghost s: seq<Chunk>, ghost k: nat, ghost c: Chunk)
    requires Stored(ram[..], list, s) && k <= |s| && item == c.addr && entry == NodeAt(list, s, k + 1)
    requires Laid(ram.Length, list, Insert(s, k, c)) && LensAt(ram[..], Insert(s, k, c))
    modifies ram
    ensures Stored(ram[..], list, Insert(s, k, c))
    ensures OnlyListWords(old(ram[..]), ram[..], list, Insert(s, k, c))
  {
    ghost var t := Insert(s, k, c);
    CycleNode(list, s, k + 1);
    CycleNode(list, s, k);
    assert Addrs(t) == Insert(Addrs(s), k, c.addr);
    LaidPlaced(ram.Length, list, t);
    ListAddTail(ram, entry, item, list, Addrs(s), k);
    assert Addrs(t)[k] == c.addr;
    assert k > 0 ==> Addrs(t)[k - 1] == NodeAt(list, s, k);
    assert k < |s| ==> Addrs(t)[k + 1] == entry;
    LinksKeepLens(old(ram[..]), ram[..], list, t, c.addr, NodeAt(list, s, k), entry);
  }

  /** Adds chunk `c` after chunk `k - 1`, the ring node at position `k`. */
  method AddAfter(ram: array<int>, entry: int, item: int, ghost list: int, ghost s: seq<Chunk>, ghost k: nat, ghost c: Chunk)
    requires Stored(ram[..], list, s) && k <= |s| && item == c.addr && entry == NodeAt(list, s, k)
    requires Laid(ram.Length, list, Insert(s, k, c)) && LensAt(ram[..], Insert(s, k, c))
    modifies ram
    ensures Stored(ram[..], list, Insert(s, k, c))
    ensures OnlyListWords(old(ram[..]), ram[..], list, Insert(s, k, c))
  {
    ghost var t := Insert(s, k, c);
    CycleNode(list, s, k + 1);
    CycleNode(list, s, k);
    assert Addrs(t) == Insert(Addrs(s), k, c.addr);
    LaidPlaced(ram.Length, list, t);
    ListAddHead(ram, entry, item, list, Addrs(s), k);
    assert Addrs(t)[k] == c.addr;
    assert k > 0 ==> Addrs(t)[k - 1] == entry;
    assert k < |s| ==> Addrs(t)[k + 1] == NodeAt(list, s, k + 1);
    LinksKeepLens(old(ram[..]), ram[..], list, t, c.addr, entry, NodeAt(list, s, k + 1));
  }

  lemma RemoveAt(s: seq<Chunk>, k: nat, i: nat)
    requires k < |s| && i < |s| - 1
    ensures |Remove(s, k)| == |s| - 1
    ensures Remove(s, k)[i] == s[if i < k then i else i + 1]
  {
  }

  lemma RemoveAddrs(s: seq<Chunk>, k: nat)
    requires k < |s|
    ensures Addrs(Remove(s, k)) == Remove(Addrs(s), k)
  {
  }

  lemma RemoveLaid(limit: int, list: int, s: seq<Chunk>, k: nat)
    requires Laid(limit, list, s) && k < |s|
    ensures Laid(limit, list, Remove(s, k))
  {
    hide Remove, OffSentinel;
    var t := Remove(s, k);
    RemoveLength(s, k);
    forall i | 0 <= i < |t| ensures t[i] == s[if i < k then i else i + 1] {
      RemoveAt(s, k, i);
    }
  }

  lemma RemoveLength(s: seq<Chunk>, k: nat)
    requires k < |s|
    ensures |Remove(s, k)| == |s| - 1
  {
  }

  lemma RemoveStored(w: seq<int>, list: int, s: seq<Chunk>, k: nat)
    requires Laid(|w|, list, s) && LensAt(w, s) && k < |s| && Ring(w, list, Remove(Addrs(s), k))
    ensures Stored(w, list, Remove(s, k))
  {
    hide Ring, Remove, OffSentinel, Addrs;
    var t := Remove(s, k);
    RemoveLaid(|w|, list, s, k);
    RemoveAddrs(s, k);
    RemoveLength(s, k);
    forall i | 0 <= i < |t| ensures w[t[i].addr + LEN] == t[i].len {
      RemoveAt(s, k, i);
    }
  }

  /** Takes chunk `k` off the list; its length word stays. */
  method Unlink(ram: array<int>, item: int, ghost list: int, ghost s: seq<Chunk>, ghost k: nat)
    requires Stored(ram[..], list, s) && k < |s| && item == s[k].addr
    modifies ram
    ensures Stored(ram[..], list, Remove(s, k))
    ensures 0 < item && item + CHUNK_HEADER <= ram.Length && ram[item + LEN] == s[k].len
    ensures OnlyListWords(old(ram[..]), ram[..], list, s)
  {
    CycleNode(list, s, k);
    CycleNode(list, s, k + 2);
    assert Addrs(s)[k] == item;
    ListDelete(ram, item, list, Addrs(s), k);
    assert k > 0 ==> Addrs(s)[k - 1] == NodeAt(list, s, k);
    assert k + 1 < |s| ==> Addrs(s)[k + 1] == NodeAt(list, s, k + 2);
    LinksKeepLens(old(ram[..]), ram[..], list, s, item, NodeAt(list, s, k), NodeAt(list, s, k + 2));
    RemoveStored(ram[..], list, s, k);
  }

  /** Writes the length of chunk `k`. */
  method SetLen(ram: array<int>, item: int, len: int, ghost list: int, ghost s: seq<Chunk>, ghost k: nat)
    requires Stored(ram[..], list, s) && k < |s| && item == s[k].addr
    modifies ram
    ensures Stored(ram[..], list, s[k := Chunk(item, len)])
    ensures OnlyListWords(old(ram[..]), ram[..], list, s)
  {
    ram[item + LEN] := len;
    LenWrite(old(ram[..]), ram[..], list, s, k, len);
  }

  lemma LenWrite(w: seq<int>, w': seq<int>, list: int, s: seq<Chunk>, k: nat, len: int)
    requires Stored(w, list, s) && k < |s| && w' == w[s[k].addr + LEN := len]
    ensures Stored(w', list, s[k := Chunk(s[k].addr, len)])
    ensures OnlyListWords(w, w', list, s)
  {
    var t := s[k := Chunk(s[k].addr, len)];
    assert Addrs(t) == Addrs(s);
    forall i | 0 <= i < |Addrs(s)| + 2
      ensures var a := Cycle(list, Addrs(s))[i]; w'[a] == w[a] && w'[a + NEXT] == w[a + NEXT]
    {
      CycleNode(list, s, i);
    }
    RingFrame(w, w', list, Addrs(s));
  }

  /** Writes elsewhere leave the free list as it is. */
  lemma StoredFrame(w: seq<int>, w': seq<int>, list: int, s: seq<Chunk>)
    requires Stored(w, list, s) && |w'| == |w|
    requires forall a :: 0 <= a < |w| && ListWord(list, s, a) ==> w'[a] == w[a]
    ensures Stored(w', list, s)
  {
  }

  // ------------------------------------------------------------------ where an operation writes

  /** All writes fell on the sentinel or on bytes of `s`. */
  ghost predicate WritesWithin(w: seq<int>, w': seq<int>, list: int, s: seq<Chunk>) {
    |w'| == |w| && forall a :: 0 <= a < |w| && a != list && a != list + NEXT && !In(s, a) ==> w'[a] == w[a]
  }

  lemma ListWordsWithin(w: seq<int>, w': seq<int>, list: int, s: seq<Chunk>, t: seq<Chunk>)
    requires OnlyListWords(w, w', list, s) && BytesIn(s, t)
    requires forall i :: 0 <= i < |s| ==> CHUNK_HEADER <= s[i].len
    ensures WritesWithin(w, w', list, t)
  {
  }

  /** Which words are list words depends on the addresses only. */
  lemma SameListWords(w: seq<int>, w': seq<int>, list: int, s: seq<Chunk>, k: nat, len: int)
    requires k < |s| && OnlyListWords(w, w', list, s[k := Chunk(s[k].addr, len)])
    ensures OnlyListWords(w, w', list, s)
  {
  }

  lemma WithinTrans(w: seq<int>, w': seq<int>, w'': seq<int>, list: int, s: seq<Chunk>)
    requires WritesWithin(w, w', list, s) && WritesWithin(w', w'', list, s)
    ensures WritesWithin(w, w'', list, s)
  {
  }

  lemma WithinSame(w: seq<int>, list: int, s: seq<Chunk>)
    ensures WritesWithin(w, w, list, s)
  {
  }

  /** The chunks come in address order and do not overlap. */
  ghost predicate Ordered(s: seq<Chunk>) {
    forall i, j :: 0 <= i < j < |s| ==> s[i].End() <= s[j].addr
  }

  /** Chunks of at least a header each, disjoint and clear of the sentinel, can be laid out as a free list. */
  lemma CanonicalLaid(s: seq<Chunk>, base: int, len: int, limit: int, list: int)
    requires AllSized(s, base, len) && 0 < base && base + len <= limit && Ordered(s)
    requires 0 < list && list + NODE_SIZE <= limit && (list + NODE_SIZE <= base || base + len <= list)
    ensures Laid(limit, list, s)
  {
  }

  lemma InsertLaid(limit: int, list: int, base: int, len: int, s: seq<Chunk>, k: nat, c: Chunk)
    requires Placing(limit, list, base, len, s, k, c)
    ensures Laid(limit, list, Insert(s, k, c))
  {
    var t := Insert(s, k, c);
    InsertIsSplice(s, k, c);
    SpliceSized(s, k, k, [c], base, len);
    forall i, j | 0 <= i < j < |t| ensures t[i].End() <= t[j].addr {
      assert t[i] == if i < k then s[i] else if i == k then c else s[i - 1];
      assert t[j] == if j < k then s[j] else if j == k then c else s[j - 1];
    }
    CanonicalLaid(t, base, len, limit, list);
  }

  lemma InsertLens(w: seq<int>, list: int, s: seq<Chunk>, k: nat, c: Chunk)
    requires Stored(w, list, s) && k <= |s| && Laid(|w|, list, Insert(s, k, c)) && 0 < c.addr && c.addr + CHUNK_HEADER <= |w|
    requires w[c.addr + LEN] == c.len
    ensures LensAt(w, Insert(s, k, c))
  {
  }

  lemma LengthAt(w: seq<int>, list: int, t: seq<Chunk>, m: nat)
    requires Stored(w, list, t) && m < |t|
    ensures 0 < t[m].addr && t[m].addr + CHUNK_HEADER <= |w| && w[t[m].addr + LEN] == t[m].len
  {
  }

  /** Adds the length of chunk `k` to that of chunk `k - 1` and takes chunk `k` off the list. */
  method Absorb(ram: array<int>, left: int, right: int, ghost list: int, ghost t: seq<Chunk>, ghost k: nat)
    requires Stored(ram[..], list, t) && 0 < k < |t| && left == t[k - 1].addr && right == t[k].addr
    modifies ram
    ensures Stored(ram[..], list, Remove(t[k - 1 := Chunk(left, t[k - 1].len + t[k].len)], k))
    ensures OnlyListWords(old(ram[..]), ram[..], list, t)
  {
    hide Stored, ListWord, Remove;
    ghost var len := t[k - 1].len + t[k].len;
    LengthAt(ram[..], list, t, k - 1);
    LengthAt(ram[..], list, t, k);
    SetLen(ram, left, ram[left + LEN] + ram[right + LEN], list, t, k - 1);
    ghost var w := ram[..];
    Unlink(ram, right, list, t[k - 1 := Chunk(left, len)], k);
    SameListWords(w, ram[..], list, t, k - 1, len);
  }

  /** Where the sentinel may be: in memory, neither inside the arena nor at its end. */
  predicate SentinelOutside(limit: int, list: int, base: int, len: int) {
    && 0 < list && list + NODE_SIZE <= limit && base + len <= limit
    && (list + NODE_SIZE <= base || base + len < list)
  }

  /** `c` is a chunk of the arena with its place in the free list `s` at `k`. */
  ghost predicate Placing(limit: int, list: int, base: int, len: int, s: seq<Chunk>, k: nat, c: Chunk) {
    && Range(base, len) && SentinelOutside(limit, list, base, len)
    && Canonical(s) && AllSized(s, base, len) && Sized(c) && Inside(c, base, len) && Fits(s, k, c)
  }

  /** Writes to list words, while chunk `c` is being joined to `s`, stay within the joined list. */
  lemma JoinWrites(w: seq<int>, w': seq<int>, list: int, s: seq<Chunk>, k: nat, c: Chunk, base: int, len: int)
    requires Placing(|w|, list, base, len, s, k, c)
    requires
      || OnlyListWords(w, w', list, Insert(s, k, c))
      || OnlyListWords(w, w', list, Splice(s, JoinFrom(s, k, c), k, [JoinedLeft(s, k, c)]))
    ensures WritesWithin(w, w', list, Join(s, k, c))
  {
    JoinContains(s, k, c);
    InsertIsSplice(s, k, c);
    if OnlyListWords(w, w', list, Insert(s, k, c)) {
      SpliceSized(s, k, k, [c], base, len);
      ListWordsWithin(w, w', list, Insert(s, k, c), Join(s, k, c));
    } else {
      JoinedLeftSized(s, k, c, base, len);
      SpliceSized(s, JoinFrom(s, k, c), k, [JoinedLeft(s, k, c)], base, len);
      ListWordsWithin(w, w', list, Splice(s, JoinFrom(s, k, c), k, [JoinedLeft(s, k, c)]), Join(s, k, c));
    }
  }

  lemma JoinedLeftSized(s: seq<Chunk>, k: nat, c: Chunk, base: int, len: int)
    requires AllSized(s, base, len) && Sized(c) && Inside(c, base, len) && k <= |s|
    ensures Sized(JoinedLeft(s, k, c)) && Inside(JoinedLeft(s, k, c), base, len)
  {
  }

  /** Comparing the end of the previous chunk with `c` decides whether they touch. */
  lemma LeftDecision(w: seq<int>, list: int, base: int, len: int, s: seq<Chunk>, k: nat, c: Chunk)
    requires Placing(|w|, list, base, len, s, k, c) && Stored(w, list, Insert(s, k, c))
    ensures var t := Insert(s, k, c);
      && k < |t| && t[k] == c
      && (k > 0 ==> t[k - 1] == s[k - 1] && 0 < s[k - 1].addr && s[k - 1].addr + CHUNK_HEADER <= |w|
                    && w[s[k - 1].addr + LEN] == s[k - 1].len)
      && (TouchesLeft(s, k, c) ==> Chunk(s[k - 1].addr, s[k - 1].len + c.len) == JoinedLeft(s, k, c))
  {
  }

  /** The same for the next chunk; the sentinel lies nowhere an arena chunk can end. */
  lemma RightDecision(w: seq<int>, list: int, base: int, len: int, s: seq<Chunk>, k: nat, c: Chunk)
    requires Placing(|w|, list, base, len, s, k, c)
    requires Stored(w, list, Splice(s, JoinFrom(s, k, c), k, [JoinedLeft(s, k, c)]))
    ensures var i, x := JoinFrom(s, k, c), JoinedLeft(s, k, c);
      var t := Splice(s, i, k, [x]);
      && i < |t| && t[i] == x && 0 < x.addr && x.addr + CHUNK_HEADER <= |w| && x.addr + w[x.addr + LEN] == c.End()
      && (k < |s| ==> i + 1 < |t| && t[i + 1] == s[k])
      && (TouchesRight(s, k, c) ==> Chunk(x.addr, x.len + s[k].len) == Joined(s, k, c))
      && (TouchesRight(s, k, c) <==> c.End() == NodeAt(list, s, k + 1)) && NodeAt(list, s, k + 1) != NULL
  {
    hide Ring;
    var i, x := JoinFrom(s, k, c), JoinedLeft(s, k, c);
    var t := Splice(s, i, k, [x]);
    assert t[i] == x;
    assert k < |s| ==> t[i + 1] == s[k] && s[k].len > 0;
  }

  // ------------------------------------------------------------------ heap_insert_free_chunk

  /** Finds the node to insert before: the first chunk above `chunk`, or the sentinel. */
  method FindNext(ram: array<int>, list: int, chunk: int, ghost s: seq<Chunk>, ghost k: nat, ghost c: Chunk)
    returns (next: int)
    requires Stored(ram[..], list, s) && Canonical(s) && Fits(s, k, c) && chunk == c.addr
    ensures next == NodeAt(list, s, k + 1)
  {
    ghost var j := 0;
    CycleNode(list, s, 0);
    CycleNode(list, s, 1);
    assert ram[..][list + NEXT] == Cycle(list, Addrs(s))[1];
    next := ram[list + NEXT];
    while next != list
      invariant j <= k && next == NodeAt(list, s, j + 1)
      decreases k - j
    {
      assert j < |s| ==> s[j].len > 0;
      if chunk < next {
        break;
      }
      CycleNode(list, s, j + 1);
      CycleNode(list, s, j + 2);
      assert ram[..][next + NEXT] == Cycle(list, Addrs(s))[j + 2];
      next := ram[next + NEXT];
      j := j + 1;
    }
  }

  method LinkChunk(ram: array<int>, chunk: int, next: int, ghost list: int, ghost base: int, ghost len: int,
                   ghost s: seq<Chunk>, ghost k: nat, ghost c: Chunk)
    requires k <= |s| && Placing(ram.Length, list, base, len, s, k, c) && Stored(ram[..], list, s)
    requires chunk == c.addr && ram[chunk + LEN] == c.len && next == NodeAt(list, s, k + 1)
    modifies ram
    ensures Stored(ram[..], list, Insert(s, k, c))
    ensures WritesWithin(old(ram[..]), ram[..], list, Join(s, k, c))
  {
    InsertLaid(ram.Length, list, base, len, s, k, c);
    InsertLens(ram[..], list, s, k, c);
    AddBefore(ram, next, chunk, list, s, k, c);
    JoinWrites(old(ram[..]), ram[..], list, s, k, c, base, len);
  }

  /** The chunk before `chunk` in the list, or NULL. */
  method PrevChunk(ram: array<int>, list: int, chunk: int, ghost t: seq<Chunk>, ghost k: nat) returns (r: int)
    requires Stored(ram[..], list, t) && k < |t| && chunk == t[k].addr
    ensures r == if k == 0 then NULL else t[k - 1].addr
  {
    hide Ring;
    r := ListPrev(ram, list, chunk, Addrs(t), k);
  }

  /** Extends the previous chunk if it ends where `chunk` starts. */
  method MergeLeft(ram: array<int>, list: int, chunk: int, ghost base: int, ghost len: int,
                   ghost s: seq<Chunk>, ghost k: nat, ghost c: Chunk) returns (r: int)
    requires k <= |s| && Placing(ram.Length, list, base, len, s, k, c)
    requires chunk == c.addr && Stored(ram[..], list, Insert(s, k, c))
    modifies ram
    ensures Stored(ram[..], list, Splice(s, JoinFrom(s, k, c), k, [JoinedLeft(s, k, c)]))
    ensures r == JoinedLeft(s, k, c).addr
    ensures WritesWithin(old(ram[..]), ram[..], list, Join(s, k, c))
  {
    hide Placing, Stored, Insert, Splice, Join, OnlyListWords, WritesWithin;
    LeftDecision(ram[..], list, base, len, s, k, c);
    InsertIsSplice(s, k, c);
    WithinSame(ram[..], list, Join(s, k, c));
    r := chunk;
    var last := PrevChunk(ram, list, chunk, Insert(s, k, c), k);
    if last != NULL && last + ram[last + LEN] == chunk {
      LeftMerge(s, k, c, JoinedLeft(s, k, c));
      Absorb(ram, last, chunk, list, Insert(s, k, c), k);
      JoinWrites(old(ram[..]), ram[..], list, s, k, c, base, len);
      r := last;
    }
  }

  /** Swallows the next chunk if `chunk` ends where it starts. The sentinel is never mistaken for a chunk. */
  method MergeRight(ram: array<int>, list: int, chunk: int, next: int, ghost base: int, ghost len: int,
                    ghost s: seq<Chunk>, ghost k: nat, ghost c: Chunk)
    requires k <= |s| && Placing(ram.Length, list, base, len, s, k, c)
    requires chunk == JoinedLeft(s, k, c).addr && next == NodeAt(list, s, k + 1)
    requires Stored(ram[..], list, Splice(s, JoinFrom(s, k, c), k, [JoinedLeft(s, k, c)]))
    modifies ram
    ensures Stored(ram[..], list, Join(s, k, c))
    ensures WritesWithin(old(ram[..]), ram[..], list, Join(s, k, c))
  {
    hide Placing, Stored, Splice, JoinedLeft, Joined, Join, OnlyListWords, WritesWithin;
    RightDecision(ram[..], list, base, len, s, k, c);
    WithinSame(ram[..], list, Join(s, k, c));
    if next != NULL && chunk + ram[chunk + LEN] == next {
      ghost var i, x := JoinFrom(s, k, c), JoinedLeft(s, k, c);
      RightMerge(s, i, k, x, Joined(s, k, c));
      JoinWithNext(s, k, c);
      Absorb(ram, chunk, next, list, Splice(s, i, k, [x]), i + 1);
      JoinWrites(old(ram[..]), ram[..], list, s, k, c, base, len);
    } else {
      JoinWithoutNext(s, k, c);
    }
  }

  /** The list part of heap_insert_free_chunk: `s` becomes the canonical list of its bytes and those of `c`. */
  method InsertChunk(ram: array<int>, list: int, chunk: int, ghost base: int, ghost len: int,
                     ghost s: seq<Chunk>, ghost k: nat, ghost c: Chunk) returns (r: int)
    requires k <= |s| && Placing(ram.Length, list, base, len, s, k, c) && Stored(ram[..], list, s)
    requires chunk == c.addr && ram[chunk + LEN] == c.len
    modifies ram
    ensures Stored(ram[..], list, Join(s, k, c))
    ensures Canonical(Join(s, k, c)) && AllSized(Join(s, k, c), base, len)
    ensures forall b :: In(Join(s, k, c), b) <==> In(s, b) || c.Has(b)
    ensures r == Joined(s, k, c).addr
    ensures WritesWithin(old(ram[..]), ram[..], list, Join(s, k, c))
  {
    hide Stored, Join, AllSized, In, WritesWithin, JoinedLeft, Joined;
    JoinCanonical(s, k, c);
    JoinSized(s, k, c, base, len);
    forall b {
      JoinBytes(s, k, c, b);
    }
    JoinStart(s, k, c);
    var next := FindNext(ram, list, chunk, s, k, c);
    LinkChunk(ram, chunk, next, list, base, len, s, k, c);
    ghost var w1 := ram[..];
    r := MergeLeft(ram, list, chunk, base, len, s, k, c);
    ghost var w2 := ram[..];
    MergeRight(ram, list, r, next, base, len, s, k, c);
    WithinTrans(old(ram[..]), w1, w2, list, Join(s, k, c));
    WithinTrans(old(ram[..]), w2, ram[..], list, Join(s, k, c));
  }

  // ------------------------------------------------------------------ taking a chunk off for an allocation

  /** Chunk `k` of a free list in the arena can give up `need` bytes. */
  ghost predicate Carving(limit: int, list: int, base: int, len: int, s: seq<Chunk>, k: nat, need: int) {
    && Range(base, len) && SentinelOutside(limit, list, base, len) && Canonical(s) && AllSized(s, base, len)
    && k < |s| && CHUNK_HEADER <= need <= s[k].len && need % 4 == 0
  }

  function RestOf(c: Chunk, need: int): Chunk {
    Chunk(c.addr + need, c.len - need)
  }

  /** The chunk after `chunk` in the list, or NULL. */
  method NextChunk(ram: array<int>, list: int, chunk: int, ghost t: seq<Chunk>, ghost k: nat) returns (r: int)
    requires Stored(ram[..], list, t) && k < |t| && chunk == t[k].addr
    ensures r == if k == |t| - 1 then NULL else t[k + 1].addr
  {
    hide Ring;
    r := ListNext(ram, list, chunk, Addrs(t), k);
  }

  lemma RemoveIsSplice(s: seq<Chunk>, k: nat, r: Chunk)
    requires k < |s|
    ensures Remove(s, k) == Splice(s, k, k + 1, [])
    ensures Insert(Remove(s, k), k, r) == Splice(s, k, k + 1, [r])
  {
  }

  lemma CarvingRest(limit: int, list: int, base: int, len: int, s: seq<Chunk>, k: nat, need: int)
    requires Carving(limit, list, base, len, s, k, need) && s[k].len > need + CHUNK_HEADER
    ensures Placing(limit, list, base, len, Remove(s, k), k, RestOf(s[k], need))
    ensures NodeAt(list, Remove(s, k), k + 1) == if k == |s| - 1 then list else s[k + 1].addr
    ensures s[k].addr > 0 && RestOf(s[k], need).addr + CHUNK_HEADER <= limit
  {
    hide Remove, Splice, Canonical, AllSized;
    var t, r := Remove(s, k), RestOf(s[k], need);
    RemoveLength(s, k);
    RemoveIsSplice(s, k, r);
    SpliceCanonical(s, k, k + 1, []);
    SpliceSized(s, k, k + 1, [], base, len);
    RestFits(s, k, need, base, len);
    assert k < |s| - 1 ==> t[k] == s[k + 1] by {
      if k < |s| - 1 {
        RemoveAt(s, k, k);
      }
    }
  }

  lemma RestFits(s: seq<Chunk>, k: nat, need: int, base: int, len: int)
    requires Canonical(s) && AllSized(s, base, len) && k < |s| && 0 < need && need + CHUNK_HEADER < s[k].len && need % 4 == 0
    ensures Fits(Remove(s, k), k, RestOf(s[k], need)) && Sized(RestOf(s[k], need)) && Inside(RestOf(s[k], need), base, len)
    ensures 0 < s[k].len && Sized(s[k]) && Inside(s[k], base, len)
  {
  }

  /** A chunk off the list holds no list word. */
  lemma OffList(limit: int, list: int, base: int, len: int, s: seq<Chunk>, k: nat, need: int, a: int)
    requires Carving(limit, list, base, len, s, k, need) && s[k].Has(a)
    ensures !ListWord(list, Remove(s, k), a)
  {
    var t := Remove(s, k);
    assert Sized(s[k]) && Inside(s[k], base, len);
    forall i | 0 <= i < |t| ensures !(t[i].addr <= a < t[i].addr + CHUNK_HEADER) {
      assert t[i] == if i < k then s[i] else s[i + 1];
      assert Sized(t[i]);
    }
  }

  /** The two length words written when a chunk is split lie in the chunk, which is off the list. */
  lemma SplitWrites(w: seq<int>, w': seq<int>, list: int, base: int, len: int, s: seq<Chunk>, k: nat, need: int)
    requires Carving(|w|, list, base, len, s, k, need) && s[k].len > need + CHUNK_HEADER && Stored(w, list, Remove(s, k))
    requires |w'| == |w| && forall a :: 0 <= a < |w| && !s[k].Has(a) ==> w'[a] == w[a]
    ensures Stored(w', list, Remove(s, k)) && WritesWithin(w, w', list, s)
  {
    hide Stored, Ring;
    forall a | s[k].Has(a) ensures !ListWord(list, Remove(s, k), a) {
      OffList(|w|, list, base, len, s, k, need, a);
    }
    StoredFrame(w, w', list, Remove(s, k));
    assert forall a :: 0 <= a < |w| && s[k].Has(a) ==> In(s, a);
  }

  /** Puts what is left of the chunk, past its first `need` bytes, where the chunk used to be. */
  method SplitOff(ram: array<int>, list: int, chunk: int, next: int, need: int, ghost base: int, ghost len: int,
                  ghost s: seq<Chunk>, ghost k: nat)
    requires k < |s| && Carving(ram.Length, list, base, len, s, k, need) && s[k].len > need + CHUNK_HEADER
    requires Stored(ram[..], list, Remove(s, k))
    requires chunk == s[k].addr && 0 < chunk && chunk + CHUNK_HEADER <= ram.Length && ram[chunk + LEN] == s[k].len
    requires next == if k == |s| - 1 then NULL else s[k + 1].addr
    modifies ram
    ensures Stored(ram[..], list, Splice(s, k, k + 1, [RestOf(s[k], need)]))
    ensures ram[chunk + LEN] == need && WritesWithin(old(ram[..]), ram[..], list, s)
  {
    hide Stored, WritesWithin, Remove, AllSized, Canonical, Insert, Splice, Join;
    ghost var t, r := Remove(s, k), RestOf(s[k], need);
    CarvingRest(ram.Length, list, base, len, s, k, need);
    var newchunk := chunk + need;
    ram[newchunk + LEN] := ram[chunk + LEN] - need;
    ram[chunk + LEN] := ram[chunk + LEN] - (ram[chunk + LEN] - need);
    ghost var w := ram[..];
    SplitWrites(old(ram[..]), w, list, base, len, s, k, need);
    RemoveIsSplice(s, k, r);
    if next != NULL {
      LinkChunk(ram, newchunk, next, list, base, len, t, k, r);
    } else {
      LinkChunk(ram, newchunk, list, list, base, len, t, k, r);
    }
    CarvedJoin(ram.Length, list, base, len, s, k, need);
    WithinSubset(w, ram[..], list, Join(t, k, r), s);
    WithinTrans(old(ram[..]), w, ram[..], list, s);
    CarvedLength(w, ram[..], list, base, len, s, k, need);
  }

  lemma WithinSubset(w: seq<int>, w': seq<int>, list: int, s: seq<Chunk>, t: seq<Chunk>)
    requires WritesWithin(w, w', list, s) && BytesIn(s, t)
    ensures WritesWithin(w, w', list, t)
  {
  }

  /** The rest of a split chunk touches no neighbour on the left, and joining it adds no byte that was not free. */
  lemma CarvedJoin(limit: int, list: int, base: int, len: int, s: seq<Chunk>, k: nat, need: int)
    requires Carving(limit, list, base, len, s, k, need) && s[k].len > need + CHUNK_HEADER
    ensures BytesIn(Join(Remove(s, k), k, RestOf(s[k], need)), s)
  {
  }

  /** Linking the rest does not touch the length word of the chunk handed out. */
  lemma CarvedLength(w: seq<int>, w': seq<int>, list: int, base: int, len: int, s: seq<Chunk>, k: nat, need: int)
    requires Carving(|w|, list, base, len, s, k, need) && s[k].len > need + CHUNK_HEADER
    requires WritesWithin(w, w', list, Join(Remove(s, k), k, RestOf(s[k], need)))
    ensures 0 <= s[k].addr + LEN < |w| == |w'| && w'[s[k].addr + LEN] == w[s[k].addr + LEN]
  {
  }

  /** Takes chunk `k` off the list and, if it is large enough, puts the part behind `need` bytes back. */
  method Carve(ram: array<int>, list: int, chunk: int, need: int, ghost base: int, ghost len: int,
               ghost s: seq<Chunk>, ghost k: nat)
    requires k < |s| && Carving(ram.Length, list, base, len, s, k, need)
    requires Stored(ram[..], list, s) && chunk == s[k].addr
    modifies ram
    ensures Stored(ram[..], list, Splice(s, k, k + 1, Rest(s[k], need)))
    ensures 0 < chunk && chunk + CHUNK_HEADER <= ram.Length && ram[chunk + LEN] == Handed(s[k], need).len
    ensures WritesWithin(old(ram[..]), ram[..], list, s)
  {
    hide Stored, WritesWithin, OnlyListWords, Remove, AllSized, Canonical, Splice;
    CarvedSized(ram.Length, list, base, len, s, k, need);
    var next := NextChunk(ram, list, chunk, s, k);
    Unlink(ram, chunk, list, s, k);
    ghost var w := ram[..];
    ListWordsWithin(old(ram[..]), w, list, s, s);
    RemoveIsSplice(s, k, s[k]);
    if ram[chunk + LEN] > need + CHUNK_HEADER {
      SplitOff(ram, list, chunk, next, need, base, len, s, k);
      WithinTrans(old(ram[..]), w, ram[..], list, s);
    }
  }

  lemma CarvedSized(limit: int, list: int, base: int, len: int, s: seq<Chunk>, k: nat, need: int)
    requires Carving(limit, list, base, len, s, k, need)
    ensures forall i :: 0 <= i < |s| ==> CHUNK_HEADER <= s[i].len
  {
  }

  /** Finds the first chunk with at least `need` bytes; `chunk` is the sentinel when there is none. */
  method FindFit(ram: array<int>, list: int, need: int, ghost s: seq<Chunk>) returns (chunk: int, ghost k: nat)
    requires Stored(ram[..], list, s)
    ensures k <= |s| && chunk == NodeAt(list, s, k + 1)
    ensures k == |s| ==> NoFit(s, need)
    ensures k < |s| ==> FirstFit(s, k, need) && chunk != list
  {
    k := 0;
    CycleNode(list, s, 0);
    CycleNode(list, s, 1);
    assert ram[..][list + NEXT] == Cycle(list, Addrs(s))[1];
    chunk := ram[list + NEXT];
    while chunk != list
      invariant k <= |s| && chunk == NodeAt(list, s, k + 1)
      invariant forall j :: 0 <= j < k ==> s[j].len < need
      decreases |s| - k
    {
      assert ram[..][s[k].addr + LEN] == s[k].len;
      if ram[chunk + LEN] >= need {
        break;
      }
      CycleNode(list, s, k + 1);
      CycleNode(list, s, k + 2);
      assert ram[..][chunk + NEXT] == Cycle(list, Addrs(s))[k + 2];
      chunk := ram[chunk + NEXT];
      k := k + 1;
    }
  }
}
