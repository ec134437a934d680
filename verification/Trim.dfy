/**
 Giving whole pages of the free list back to the page allocator (miniheap_trim), in bytes.
 */
module Trim {
  import opened Chunks
  import opened Arena

  function PageUp(x: int): int {
    x + (-x) % PAGE_SIZE
  }

  function PageDown(x: int): int {
    x - x % PAGE_SIZE
  }

  /** The first page that can go: what stays below it must be nothing or hold a free chunk's header. */
  function TrimLo(c: Chunk): int {
    var up := PageUp(c.addr);
    if up == c.addr || CHUNK_HEADER <= up - c.addr then up else up + PAGE_SIZE
  }

  /** The end of the last page that can go. */
  function TrimHi(c: Chunk): int {
    var down := PageDown(c.End());
    if down == c.End() || CHUNK_HEADER <= c.End() - down then down else down - PAGE_SIZE
  }

  predicate HasPages(c: Chunk) {
    TrimLo(c) < TrimHi(c)
  }

  /** `l..h` are pages of `c` whose removal leaves on either side nothing or room for a free chunk's header. */
  predicate Trimmable(c: Chunk, l: int, h: int) {
    && l % PAGE_SIZE == 0 && h % PAGE_SIZE == 0 && c.addr <= l < h <= c.End()
    && (l == c.addr || CHUNK_HEADER <= l - c.addr)
    && (h == c.End() || CHUNK_HEADER <= c.End() - h)
  }

  /** The pages trimmed from a chunk are the largest page range that can be. */
  lemma TrimIsLargest(c: Chunk)
    requires c.len > 0
    ensures HasPages(c) <==> exists l, h :: Trimmable(c, l, h)
    ensures HasPages(c) ==> Trimmable(c, TrimLo(c), TrimHi(c))
    ensures forall l, h :: Trimmable(c, l, h) ==> TrimLo(c) <= l && h <= TrimHi(c)
  {
    if HasPages(c) {
      TrimFits(c);
    }
    forall l, h | Trimmable(c, l, h) ensures TrimLo(c) <= l && h <= TrimHi(c) {
      TrimBounds(c, l, h);
    }
  }

  lemma PageFacts(x: int)
    ensures PageUp(x) % PAGE_SIZE == 0 && x <= PageUp(x) < x + PAGE_SIZE
    ensures PageDown(x) % PAGE_SIZE == 0 && x - PAGE_SIZE < PageDown(x) <= x
  {
    Remainder(-x);
    Remainder(x);
    Multiple(PageUp(x), 0 - (-x) / PAGE_SIZE);
    Multiple(PageDown(x), x / PAGE_SIZE);
  }

  lemma Remainder(x: int)
    ensures x == PAGE_SIZE * (x / PAGE_SIZE) + x % PAGE_SIZE && 0 <= x % PAGE_SIZE < PAGE_SIZE
  {
  }

  lemma Multiple(p: int, q: int)
    requires p == PAGE_SIZE * q
    ensures p % PAGE_SIZE == 0
  {
  }

  /** No page boundary lies strictly between `x` and its roundings. */
  lemma PagesBetween(x: int, l: int)
    requires l % PAGE_SIZE == 0
    ensures x <= l ==> PageUp(x) <= l
    ensures l <= x ==> l <= PageDown(x)
  {
    PageFacts(x);
    NextPage(PageUp(x), l);
    NextPage(l, PageDown(x));
  }

  /** Multiples of the page size are equal or a page apart. */
  lemma NextPage(p: int, l: int)
    requires p % PAGE_SIZE == 0 && l % PAGE_SIZE == 0
    ensures p > l ==> p >= l + PAGE_SIZE
  {
    var i, j := p / PAGE_SIZE, l / PAGE_SIZE;
    assert p == PAGE_SIZE * i && l == PAGE_SIZE * j;
  }

  lemma OnePage(p: int)
    requires p % PAGE_SIZE == 0
    ensures (p + PAGE_SIZE) % PAGE_SIZE == 0 && (p - PAGE_SIZE) % PAGE_SIZE == 0
  {
  }

  lemma TrimFits(c: Chunk)
    requires HasPages(c)
    ensures Trimmable(c, TrimLo(c), TrimHi(c))
  {
    hide PageUp, PageDown;
    PageFacts(c.addr);
    PageFacts(c.End());
    OnePage(PageUp(c.addr));
    OnePage(PageDown(c.End()));
  }

  lemma TrimBounds(c: Chunk, l: int, h: int)
    requires Trimmable(c, l, h)
    ensures TrimLo(c) <= l && h <= TrimHi(c)
  {
    hide PageUp, PageDown;
    PageFacts(c.addr);
    PageFacts(c.End());
    PagesBetween(c.addr, l);
    PagesBetween(c.End(), h);
    NextPage(l, PageUp(c.addr));
    NextPage(PageDown(c.End()), h);
  }

  function Below(c: Chunk): seq<Chunk> {
    if c.addr < TrimLo(c) then [Chunk(c.addr, TrimLo(c) - c.addr)] else []
  }

  function Above(c: Chunk): seq<Chunk> {
    if TrimHi(c) < c.End() then [Chunk(TrimHi(c), c.End() - TrimHi(c))] else []
  }

  /** What stays in the free list of chunk `c`. */
  function Leftovers(c: Chunk): seq<Chunk> {
    if HasPages(c) then Below(c) + Above(c) else [c]
  }

  function Pages(c: Chunk): seq<Chunk> {
    if HasPages(c) then [Chunk(TrimLo(c), TrimHi(c) - TrimLo(c))] else []
  }

  function TrimFree(s: seq<Chunk>): seq<Chunk> {
    if s == [] then [] else TrimFree(s[..|s| - 1]) + Leftovers(s[|s| - 1])
  }

  function TrimPages(s: seq<Chunk>): seq<Chunk> {
    if s == [] then [] else TrimPages(s[..|s| - 1]) + Pages(s[|s| - 1])
  }

  ghost predicate TrimStep(a: Arena, a': Arena) {
    a' == a.(free := TrimFree(a.free), trimmed := a.trimmed + TrimPages(a.free))
  }

  // ------------------------------------------------------------------ one chunk

  lemma LeftoverBytes(c: Chunk, b: int)
    ensures In(Leftovers(c), b) <==> c.Has(b) && !In(Pages(c), b)
    ensures In(Pages(c), b) ==> c.Has(b)
  {
    var x := Chunk(TrimLo(c), TrimHi(c) - TrimLo(c));
    assert In([x], b) <==> [x][0].Has(b);
    assert In([c], b) <==> [c][0].Has(b);
    InConcat(Below(c), Above(c), b);
    assert In(Below(c), b) <==> Below(c) != [] && Below(c)[0].Has(b);
    assert In(Above(c), b) <==> Above(c) != [] && Above(c)[0].Has(b);
    if HasPages(c) {
      TrimFits(c);
    }
  }

  lemma LeftoverShape(c: Chunk, base: int, len: int)
    requires Sized(c) && Inside(c, base, len)
    ensures Canonical(Leftovers(c)) && AllSized(Leftovers(c), base, len)
    ensures Leftovers(c) != [] ==> c.addr <= Leftovers(c)[0].addr && Leftovers(c)[|Leftovers(c)| - 1].End() <= c.End()
  {
    if HasPages(c) {
      TrimFits(c);
      PieceSized(c);
      CanonicalConcat(Below(c), Above(c));
    }
  }

  lemma PageIsWords(x: int)
    requires x % PAGE_SIZE == 0
    ensures x % 4 == 0
  {
    assert x == 4 * (1024 * (x / PAGE_SIZE));
  }

  lemma PieceSized(c: Chunk)
    requires Sized(c) && HasPages(c)
    ensures c.addr < TrimLo(c) ==> Sized(Chunk(c.addr, TrimLo(c) - c.addr))
    ensures TrimHi(c) < c.End() ==> Sized(Chunk(TrimHi(c), c.End() - TrimHi(c)))
  {
    TrimFits(c);
    WordGap(c, TrimLo(c), TrimHi(c));
  }

  lemma WordGap(c: Chunk, l: int, h: int)
    requires Sized(c) && Trimmable(c, l, h)
    ensures (l - c.addr) % 4 == 0 && h % 4 == 0 && (c.End() - h) % 4 == 0
  {
    PageIsWords(l);
    PageIsWords(h);
    Words(c.addr, c.len, l, h);
  }

  lemma Words(a: int, n: int, l: int, h: int)
    requires a % 4 == 0 && n % 4 == 0 && l % 4 == 0 && h % 4 == 0
    ensures (l - a) % 4 == 0 && (a + n - h) % 4 == 0
  {
    var i, j, k, m := a / 4, n / 4, l / 4, h / 4;
    assert a == 4 * i && n == 4 * j && l == 4 * k && h == 4 * m;
    assert l - a == 4 * (k - i) && a + n - h == 4 * (i + j - m);
  }

  lemma LeftoverSum(c: Chunk)
    requires c.len > 0
    ensures Sum(Leftovers(c)) + Sum(Pages(c)) == c.len
  {
    if HasPages(c) {
      TrimFits(c);
      SumConcat(Below(c), Above(c));
    }
  }

  /** Nothing more can be trimmed from what a trim leaves behind. */
  lemma LeftoverIsDone(c: Chunk, i: nat)
    requires Sized(c) && i < |Leftovers(c)|
    ensures !HasPages(Leftovers(c)[i])
  {
  }

  // ------------------------------------------------------------------ the whole list

  lemma {:induction false} TrimBytes(s: seq<Chunk>, b: int)
    requires Canonical(s)
    ensures In(TrimFree(s), b) <==> In(s, b) && !In(TrimPages(s), b)
    ensures In(TrimPages(s), b) ==> In(s, b)
  {
    hide In, Leftovers, Pages, Canonical;
    if s == [] {
      InNone(b);
    } else {
      var n := |s| - 1;
      CanonicalPrefix(s, n);
      TrimBytes(s[..n], b);
      LeftoverBytes(s[n], b);
      InConcat(TrimFree(s[..n]), Leftovers(s[n]), b);
      InConcat(TrimPages(s[..n]), Pages(s[n]), b);
      InConcat(s[..n], [s[n]], b);
      assert s == s[..n] + [s[n]];
      InOne(s[n], b);
      if s[n].Has(b) {
        OnlyOwner(s, n, b);
      }
    }
  }

  lemma CanonicalPrefix(s: seq<Chunk>, n: nat)
    requires Canonical(s) && n <= |s|
    ensures Canonical(s[..n])
  {
  }

  /** `t` stays at or below `end`. */
  predicate Until(t: seq<Chunk>, end: int) {
    t != [] ==> t[|t| - 1].End() <= end
  }

  lemma AppendLeftovers(t: seq<Chunk>, l: seq<Chunk>, c: Chunk, end: int)
    requires Canonical(t) && Until(t, end) && end < c.addr <= c.End()
    requires Canonical(l) && Until(l, c.End()) && (l != [] ==> c.addr <= l[0].addr)
    ensures Canonical(t + l) && Until(t + l, c.End())
  {
    CanonicalConcat(t, l);
  }

  lemma {:induction false} TrimCanonical(s: seq<Chunk>, base: int, len: int)
    requires Canonical(s) && AllSized(s, base, len)
    ensures Canonical(TrimFree(s)) && Until(TrimFree(s), if s == [] then base else s[|s| - 1].End())
  {
    if s == [] {
    } else {
      var n := |s| - 1;
      TrimCanonical(s[..n], base, len);
      LeftoverShape(s[n], base, len);
      if n == 0 {
        assert TrimFree(s[..n]) == [];
        assert TrimFree(s) == Leftovers(s[n]);
      } else {
        AppendLeftovers(TrimFree(s[..n]), Leftovers(s[n]), s[n], s[n - 1].End());
      }
    }
  }

  lemma {:induction false} TrimSized(s: seq<Chunk>, base: int, len: int)
    requires AllSized(s, base, len)
    ensures AllSized(TrimFree(s), base, len)
  {
    if s == [] {
    } else {
      TrimSized(s[..|s| - 1], base, len);
      LeftoverShape(s[|s| - 1], base, len);
    }
  }

  lemma {:induction false} PagesInside(s: seq<Chunk>, base: int, len: int)
    requires AllSized(s, base, len)
    ensures forall i :: 0 <= i < |TrimPages(s)| ==> Inside(TrimPages(s)[i], base, len)
  {
    if s == [] {
    } else {
      PagesInside(s[..|s| - 1], base, len);
      var c := s[|s| - 1];
      if HasPages(c) {
        TrimFits(c);
      }
    }
  }

  lemma NoSum()
    ensures Sum([]) == 0 && forall c: Chunk :: Sum([c]) == c.len
  {
  }

  lemma {:induction false} TrimSum(s: seq<Chunk>)
    requires forall i :: 0 <= i < |s| ==> s[i].len > 0
    ensures Sum(TrimFree(s)) + Sum(TrimPages(s)) == Sum(s)
  {
    hide Leftovers, Pages, Sum;
    NoSum();
    if s == [] {
    } else {
      var n := |s| - 1;
      TrimSum(s[..n]);
      LeftoverSum(s[n]);
      SumConcat(TrimFree(s[..n]), Leftovers(s[n]));
      SumConcat(TrimPages(s[..n]), Pages(s[n]));
      SumConcat(s[..n], [s[n]]);
      assert s == s[..n] + [s[n]];
    }
  }

  lemma {:induction false} TrimIsDone(s: seq<Chunk>, base: int, len: int)
    requires AllSized(s, base, len)
    ensures forall i :: 0 <= i < |TrimFree(s)| ==> !HasPages(TrimFree(s)[i])
  {
    if s == [] {
    } else {
      var n := |s| - 1;
      TrimIsDone(s[..n], base, len);
      forall i: nat | i < |Leftovers(s[n])| ensures !HasPages(Leftovers(s[n])[i]) {
        LeftoverIsDone(s[n], i);
      }
    }
  }

  lemma {:induction false} TrimNothing(s: seq<Chunk>)
    requires forall i :: 0 <= i < |s| ==> !HasPages(s[i])
    ensures TrimFree(s) == s && TrimPages(s) == []
  {
    if s == [] {
    } else {
      TrimNothing(s[..|s| - 1]);
    }
  }

  lemma TrimPartition(a: Arena, a': Arena)
    requires Canonical(a.free) && Exclusive(a) && Covered(a) && TrimStep(a, a')
    ensures Exclusive(a') && Covered(a')
  {
    forall b {
      TrimBytes(a.free, b);
    }
    forall b {
      InConcat(a.trimmed, TrimPages(a.free), b);
    }
  }

  /** Trimming keeps the invariant. */
  lemma TrimInv(a: Arena, a': Arena)
    requires Inv(a) && TrimStep(a, a')
    ensures Inv(a')
  {
    TrimCanonical(a.free, a.base, a.len);
    TrimSized(a.free, a.base, a.len);
    PagesInside(a.free, a.base, a.len);
    TrimSum(a.free);
    SumConcat(a.trimmed, TrimPages(a.free));
    TrimPartition(a, a');
  }

  /** A second trim changes nothing. */
  lemma TrimTwice(a: Arena, a': Arena, a'': Arena)
    requires Inv(a) && TrimStep(a, a') && TrimStep(a', a'')
    ensures a'' == a'
  {
    TrimIsDone(a.free, a.base, a.len);
    TrimNothing(a'.free);
  }
}
