/**
 What one call of the allocator does, in the caller's numbers: sizes, addresses and bytes.
 */
module HeapEffects {
  import opened Lists
  import opened Chunks
  import opened Rounding
  import opened Arena
  import opened Trim
  import opened HeapRuns

  /** An allocation's header and payload, before rounding: 8 bytes more than asked for, and at least 12. */
  function Payload(size: int): int {
    if size + 8 < 12 then 12 else size + 8
  }

  /** The room kept for alignment. */
  function Slack(alignment: int): int {
    if alignment <= 0 then 0 else if alignment < 16 then 16 else alignment
  }

  /** The room looked for is the payload rounded up to words, and the slack. */
  lemma NeedExact(size: int, alignment: int)
    requires size >= 0 && alignment >= 0
    ensures size + 8 <= Payload(size) && 12 <= Payload(size) && (Payload(size) == size + 8 || Payload(size) == 12)
    ensures Slack(0) == 0 && (0 < alignment ==> 16 <= Slack(alignment) && (Slack(alignment) == 16 || Slack(alignment) == alignment))
    ensures 0 < alignment ==> alignment <= Slack(alignment)
    ensures var words := Need(size, alignment) - Slack(alignment);
      words % 4 == 0 && Payload(size) <= words < Payload(size) + 4
  {
    var n := Max(size + HEADER, CHUNK_HEADER);
    WordsUp(n);
  }

  lemma WordsUp(n: int)
    ensures (n + (-n) % 4) % 4 == 0 && n <= n + (-n) % 4 < n + 4
  {
    var q := (-n) / 4;
    assert -n == 4 * q + (-n) % 4;
    assert n + (-n) % 4 == 4 * (0 - q);
  }

  /** A chunk is large enough exactly when it holds payload and slack: its length is a number of words. */
  lemma EnoughRoom(c: Chunk, size: int, alignment: int)
    requires Sized(c) && ValidAlignment(alignment) && size >= 0 && alignment >= 0
    ensures Need(size, alignment) <= c.len <==> Payload(size) + Slack(alignment) <= c.len
  {
    hide Need, ValidAlignment, Payload, Slack;
    NeedExact(size, alignment);
    NeedIsWords(size, alignment);
    WholeWords(c.len, Need(size, alignment), Payload(size) + Slack(alignment));
  }

  lemma WholeWords(len: int, need: int, least: int)
    requires len % 4 == 0 && need % 4 == 0 && least <= need < least + 4
    ensures need <= len <==> least <= len
  {
    assert len == 4 * (len / 4) && need == 4 * (need / 4);
  }

  /** NULL exactly for an alignment that is no power of two, or when no chunk holds header, payload and slack. */
  lemma AllocFailsWhen(a: Arena, size: int, alignment: int, p: int, a': Arena)
    requires Inv(a) && size >= 0 && alignment >= 0 && AllocStep(a, size, alignment, p, a')
    ensures var slack := if alignment == 0 then 0 else if alignment < 16 then 16 else alignment;
      var payload := if size + 8 < 12 then 12 else size + 8;
      p == NULL <==> (alignment != 0 && !IsPow2(alignment)) || forall i :: 0 <= i < |a.free| ==> a.free[i].len < payload + slack
    ensures p == NULL ==> a' == a
  {
    hide Need, Taken, IsPlace;
    AllocFailsExactly(a, size, alignment, p, a');
    NeedPositive(size, alignment);
    MaxLenBounds(a.free, Need(size, alignment));
    if ValidAlignment(alignment) {
      forall i | 0 <= i < |a.free| ensures Need(size, alignment) <= a.free[i].len <==> Payload(size) + Slack(alignment) <= a.free[i].len {
        assert Sized(a.free[i]);
        EnoughRoom(a.free[i], size, alignment);
      }
    }
  }

  lemma NeedPositive(size: int, alignment: int)
    requires size >= 0 && alignment >= 0
    ensures Need(size, alignment) > 0
  {
    NeedBounds(size, alignment);
  }

  /**
   The block of a successful allocation: where the pointer lies in it, and how large it is at least and at most. It is taken
   from the lowest chunk that is large enough, and a chunk that is new in the free list is longer than its own header.
   */
  lemma AllocBlock(a: Arena, size: int, alignment: int, p: int, a': Arena)
    requires Inv(a) && size >= 0 && alignment >= 0 && AllocStep(a, size, alignment, p, a') && p != NULL
    ensures p in a'.live && a'.live[p].size == size
    ensures var e := a'.live[p].extent;
      var slack := if alignment == 0 then 0 else if alignment < 16 then 16 else alignment;
      var payload := if size + 8 < 12 then 12 else size + 8;
      && e.addr + 8 <= p && p + size <= e.addr + e.len
      && (alignment == 0 ==> p == e.addr + 8)
      && (alignment != 0 ==> p % slack == 0 && p < e.addr + 8 + slack)
      && payload + slack <= e.len <= payload + 3 + slack + 12
      && (exists k :: 0 <= k < |a.free| && a.free[k].addr == e.addr && e.len <= a.free[k].len)
      && (forall i :: 0 <= i < |a.free| && a.free[i].addr < e.addr ==> a.free[i].len < payload + slack)
    ensures forall i :: 0 <= i < |a'.free| && a'.free[i] !in a.free ==> a'.free[i].len > 12
  {
    hide Inv, Need, IsPlace, In, ValidAlignment, Handed, Rest;
    var need := Need(size, alignment);
    var k := AllocWitness(a, size, alignment, p, a');
    AllocGives(a, size, alignment, p, a');
    NeedExact(size, alignment);
    TakenBlock(a, k, size, need, p, a');
    PlaceNumbers(p, a.free[k].addr, alignment);
    FreeChunks(a);
    forall i | 0 <= i < |a.free| && a.free[i].addr < a.free[k].addr ensures a.free[i].len < Payload(size) + Slack(alignment) {
      EnoughRoom(a.free[i], size, alignment);
    }
  }

  lemma FreeChunks(a: Arena)
    requires Inv(a)
    ensures forall i :: 0 <= i < |a.free| ==> Sized(a.free[i])
  {
  }

  lemma PlaceNumbers(p: int, addr: int, alignment: int)
    requires IsPlace(p, addr, alignment) && alignment >= 0
    ensures alignment == 0 ==> p == addr + 8
    ensures alignment != 0 ==> p % Slack(alignment) == 0 && addr + 8 <= p < addr + 8 + Slack(alignment)
  {
  }

  lemma TakenBlock(a: Arena, k: nat, size: int, need: int, p: int, a': Arena)
    requires k < |a.free| && 0 < need <= a.free[k].len && Taken(a, k, size, need, p, a')
    ensures p in a'.live && a'.live[p].size == size
    ensures var e := a'.live[p].extent; e.addr == a.free[k].addr && need <= e.len <= need + 12 && e.len <= a.free[k].len
    ensures forall i :: 0 <= i < |a'.free| && a'.free[i] !in a.free ==> a'.free[i].len > 12
  {
    var rest := Rest(a.free[k], need);
    forall i | 0 <= i < |a'.free| ensures a'.free[i] in a.free || a'.free[i].len > 12 {
      assert a'.free[i] ==
        if i < k then a.free[i] else if i < k + |rest| then rest[i - k] else a.free[i - |rest| + 1];
    }
  }

  /** The free list of any state that keeps the invariant, in numbers. */
  lemma FreeListShape(a: Arena, i: nat)
    requires Inv(a) && i < |a.free|
    ensures var c := a.free[i];
      && c.addr % 4 == 0 && c.len % 4 == 0 && 12 <= c.len && a.base <= c.addr && c.addr + c.len <= a.base + a.len
      && (i + 1 < |a.free| ==> c.addr + c.len < a.free[i + 1].addr)
  {
    assert Sized(a.free[i]) && Inside(a.free[i], a.base, a.len);
  }

  // ------------------------------------------------------------------ realloc

  /** Growing from NULL allocates, shrinking to nothing frees, and otherwise the block moves or stays. */
  lemma ReallocEffect(a: Arena, p: int, size: int, q: int, a': Arena)
    requires Inv(a) && size >= 0 && ReallocStep(a, p, size, q, a')
    ensures p == NULL ==> AllocStep(a, size, 0, q, a')
    ensures p != NULL && size == 0 ==>
      && q == NULL && p in a.live && a'.live == a.live - {p}
      && Canonical(a'.free) && forall b :: In(a'.free, b) <==> In(a.free, b) || a.live[p].extent.Has(b)
    ensures p != NULL && size > 0 && q == NULL ==> a' == a
    ensures p != NULL && size > 0 && q != NULL ==>
      && p in a.live && q !in a.live && a'.live.Keys == (a.live.Keys - {p}) + {q} && a'.live[q].size == size
      && (forall r :: r in a.live && r != p ==> a'.live[r] == a.live[r])
      && Canonical(a'.free)
      && forall b :: In(a'.free, b) <==>
           (In(a.free, b) && !a'.live[q].extent.Has(b)) || a.live[p].extent.Has(b)
    ensures p != NULL && size > 0 ==>
      (q == NULL <==> forall i :: 0 <= i < |a.free| ==> a.free[i].len < if size + 8 < 12 then 12 else size + 8)
  {
    hide Inv, AllocStep, In, Canonical;
    if p != NULL && size > 0 {
      var m :| AllocStep(a, size, 0, q, m) && if q == NULL then a' == m else FreeStep(m, p, a');
      AllocFailsWhen(a, size, 0, q, m);
      if q != NULL {
        AllocGives(a, size, 0, q, m);
        MovedBlock(a, p, size, q, m, a');
      }
    }
  }

  lemma MovedBlock(a: Arena, p: int, size: int, q: int, m: Arena, a': Arena)
    requires Inv(a) && p != NULL && size > 0 && q !in a.live && q in m.live && m.live - {q} == a.live && FreeStep(m, p, a')
    requires m.live[q].size == size && p != q
    requires forall b :: In(m.free, b) <==> In(a.free, b) && !m.live[q].extent.Has(b)
    ensures p in a.live && a'.live.Keys == (a.live.Keys - {p}) + {q} && a'.live[q] == m.live[q] && Canonical(a'.free)
    ensures forall r :: r in a.live && r != p ==> a'.live[r] == a.live[r]
    ensures forall b :: In(a'.free, b) <==> (In(a.free, b) && !a'.live[q].extent.Has(b)) || a.live[p].extent.Has(b)
  {
    hide Inv, In, Canonical;
    KeepsOthers(a.live, m.live, q);
  }

  lemma KeepsOthers(live: map<int, Block>, more: map<int, Block>, q: int)
    requires q in more && more - {q} == live
    ensures forall r :: r in live ==> r in more && more[r] == live[r]
    ensures more.Keys == live.Keys + {q}
  {
    assert forall r :: r in live ==> r in more - {q} && (more - {q})[r] == more[r];
    assert forall r :: r in more && r != q ==> r in more - {q};
  }

  // ------------------------------------------------------------------ trim

  /** Byte `b` lies in pages of `c` that can go: what is left below and above is nothing or holds 12 bytes. */
  ghost predicate Goes(c: Chunk, b: int) {
    exists l, h :: Trimmable(c, l, h) && l <= b < h
  }

  lemma TrimmableNumbers(c: Chunk, l: int, h: int)
    ensures Trimmable(c, l, h) <==>
      && l % 4096 == 0 && h % 4096 == 0 && c.addr <= l < h <= c.addr + c.len
      && (l == c.addr || c.addr + 12 <= l) && (h == c.addr + c.len || h + 12 <= c.addr + c.len)
  {
  }

  lemma GoesWhere(c: Chunk, b: int)
    requires c.len > 0
    ensures Goes(c, b) <==> TrimLo(c) <= b < TrimHi(c)
    ensures In(Pages(c), b) <==> Goes(c, b)
  {
    hide TrimLo, TrimHi, Trimmable, In;
    TrimIsLargest(c);
    if HasPages(c) {
      InOne(Chunk(TrimLo(c), TrimHi(c) - TrimLo(c)), b);
    } else {
      InNone(b);
    }
  }

  lemma {:induction false} PagesGo(s: seq<Chunk>, b: int)
    requires forall i :: 0 <= i < |s| ==> s[i].len > 0
    ensures In(TrimPages(s), b) <==> exists i :: 0 <= i < |s| && Goes(s[i], b)
  {
    hide Pages, Goes, In;
    if s == [] {
      InNone(b);
    } else {
      var n := |s| - 1;
      PagesGo(s[..n], b);
      InConcat(TrimPages(s[..n]), Pages(s[n]), b);
      GoesWhere(s[n], b);
      assert forall i :: 0 <= i < n ==> s[..n][i] == s[i];
    }
  }

  /** A trim takes exactly the free bytes in pages that can go, and touches no block. */
  lemma TrimEffect(a: Arena, a': Arena, b: int)
    requires Inv(a) && TrimStep(a, a')
    ensures a'.live == a.live && a'.base == a.base && a'.len == a.len
    ensures In(a'.trimmed, b) <==> In(a.trimmed, b) || exists i :: 0 <= i < |a.free| && Goes(a.free[i], b)
    ensures In(a'.free, b) <==> In(a.free, b) && !exists i :: 0 <= i < |a.free| && Goes(a.free[i], b)
  {
    hide In, TrimFree, TrimPages, Goes;
    FreeChunks(a);
    InvCanonical(a);
    PagesGo(a.free, b);
    TrimBytes(a.free, b);
    InConcat(a.trimmed, TrimPages(a.free), b);
  }
}
