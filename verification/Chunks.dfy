/**
 Address-ordered lists of chunks and the set of bytes they cover.

 A list is canonical when its chunks are nonempty, in strictly increasing order and never touch. A canonical list is
 determined by its bytes, which is what lets the allocator's free list be specified by the bytes that are free.
 */
module Chunks {
  import opened Lists

  datatype Chunk = Chunk(addr: int, len: int) {
    function End(): int {
      addr + len
    }

    predicate Has(b: int) {
      addr <= b < End()
    }
  }

  ghost predicate In(s: seq<Chunk>, b: int) {
    exists i :: 0 <= i < |s| && s[i].Has(b)
  }

  ghost predicate Canonical(s: seq<Chunk>) {
    && (forall i :: 0 <= i < |s| ==> s[i].len > 0)
    && (forall i, j :: 0 <= i < j < |s| ==> s[i].End() < s[j].addr)
  }

  function Sum(s: seq<Chunk>): int {
    if s == [] then 0 else s[0].len + Sum(s[1..])
  }

  lemma {:induction false} SumConcat(s: seq<Chunk>, t: seq<Chunk>)
    ensures Sum(s + t) == Sum(s) + Sum(t)
  {
    if s == [] {
      assert s + t == t;
    } else {
      assert (s + t)[1..] == s[1..] + t;
      SumConcat(s[1..], t);
    }
  }

  lemma SumSplit(s: seq<Chunk>, i: nat, j: nat)
    requires i <= j <= |s|
    ensures Sum(s) == Sum(s[..i]) + Sum(s[i..j]) + Sum(s[j..])
  {
    hide Sum;
    SumConcat(s[..i] + s[i..j], s[j..]);
    SumConcat(s[..i], s[i..j]);
    assert s == s[..i] + s[i..j] + s[j..];
  }

  /** Replacing the chunks `i..j` by `m`. */
  function Splice(s: seq<Chunk>, i: nat, j: nat, m: seq<Chunk>): seq<Chunk>
    requires i <= j <= |s|
  {
    s[..i] + m + s[j..]
  }

  lemma SumSplice(s: seq<Chunk>, i: nat, j: nat, m: seq<Chunk>)
    requires i <= j <= |s|
    ensures Sum(Splice(s, i, j, m)) == Sum(s) - Sum(s[i..j]) + Sum(m)
  {
    hide Sum;
    SumSplit(s, i, j);
    SumConcat(s[..i] + m, s[j..]);
    SumConcat(s[..i], m);
  }

  lemma InConcat(s: seq<Chunk>, t: seq<Chunk>, b: int)
    ensures In(s + t, b) <==> In(s, b) || In(t, b)
  {
    if i :| 0 <= i < |s| && s[i].Has(b) {
      assert (s + t)[i] == s[i];
    }
    if i :| 0 <= i < |t| && t[i].Has(b) {
      assert (s + t)[|s| + i] == t[i];
    }
  }

  lemma InSplit(s: seq<Chunk>, i: nat, j: nat, b: int)
    requires i <= j <= |s|
    ensures In(s, b) <==> In(s[..i], b) || In(s[i..j], b) || In(s[j..], b)
  {
    hide In;
    InConcat(s[..i] + s[i..j], s[j..], b);
    InConcat(s[..i], s[i..j], b);
    assert s == s[..i] + s[i..j] + s[j..];
  }

  lemma InSplice(s: seq<Chunk>, i: nat, j: nat, m: seq<Chunk>, b: int)
    requires i <= j <= |s|
    ensures In(Splice(s, i, j, m), b) <==> In(s[..i], b) || In(m, b) || In(s[j..], b)
  {
    InConcat(s[..i] + m, s[j..], b);
    InConcat(s[..i], m, b);
  }

  /** Every byte of a canonical list at or after the end of its first chunk belongs to a later one, and conversely. */
  lemma InTail(s: seq<Chunk>, b: int)
    requires Canonical(s) && s != []
    ensures In(s[1..], b) <==> In(s, b) && s[0].End() < b
  {
    InConcat([s[0]], s[1..], b);
    assert [s[0]] + s[1..] == s;
    if In(s[1..], b) {
      var i :| 0 <= i < |s[1..]| && s[1..][i].Has(b);
      assert s[0].End() < s[i + 1].addr;
    }
    if In(s, b) && s[0].End() < b {
      var i :| 0 <= i < |s| && s[i].Has(b);
      assert s[1..][i - 1].Has(b);
    }
  }

  lemma CanonicalConcat(s: seq<Chunk>, t: seq<Chunk>)
    requires Canonical(s) && Canonical(t)
    requires s != [] && t != [] ==> s[|s| - 1].End() < t[0].addr
    ensures Canonical(s + t)
  {
    var u := s + t;
    forall i, j | 0 <= i < j < |u| ensures u[i].End() < u[j].addr {
      if i < |s| <= j {
        assert u[i] == s[i] && u[j] == t[j - |s|];
        assert i < |s| - 1 ==> s[i].End() < s[|s| - 1].addr;
        assert 0 < j - |s| ==> t[0].End() < t[j - |s|].addr;
      }
    }
  }

  lemma SpliceCanonical(s: seq<Chunk>, i: nat, j: nat, m: seq<Chunk>)
    requires i <= j <= |s| && Canonical(s) && Canonical(m)
    requires m != [] ==> (i > 0 ==> s[i - 1].End() < m[0].addr) && (j < |s| ==> m[|m| - 1].End() < s[j].addr)
    ensures Canonical(Splice(s, i, j, m))
  {
    CanonicalConcat(s[..i], m);
    CanonicalConcat(s[..i] + m, s[j..]);
  }

  ghost predicate SameBytes(s: seq<Chunk>, t: seq<Chunk>) {
    forall b :: In(s, b) <==> In(t, b)
  }

  /** The canonical form of a set of bytes is unique. */
  lemma {:induction false} CanonicalUnique(s: seq<Chunk>, t: seq<Chunk>)
    requires Canonical(s) && Canonical(t) && SameBytes(s, t)
    ensures s == t
  {
    if s == [] || t == [] {
      FirstByte(s);
      FirstByte(t);
    } else {
      SameHead(s, t);
      forall b ensures In(s[1..], b) <==> In(t[1..], b) {
        InTail(s, b);
        InTail(t, b);
      }
      CanonicalUnique(s[1..], t[1..]);
      assert s == [s[0]] + s[1..] && t == [t[0]] + t[1..];
    }
  }

  lemma FirstByte(s: seq<Chunk>)
    requires Canonical(s)
    ensures s != [] ==> In(s, s[0].addr)
  {
    assert s != [] ==> s[0].Has(s[0].addr);
  }

  lemma SameHead(s: seq<Chunk>, t: seq<Chunk>)
    requires Canonical(s) && Canonical(t) && SameBytes(s, t) && s != [] && t != []
    ensures s[0] == t[0]
  {
    LowestByte(s, t);
    LowestByte(t, s);
    FirstGap(s);
    FirstGap(t);
    LastOfHead(s, t);
    LastOfHead(t, s);
  }

  lemma LowestByte(s: seq<Chunk>, t: seq<Chunk>)
    requires Canonical(s) && Canonical(t) && SameBytes(s, t) && s != [] && t != []
    ensures t[0].addr <= s[0].addr
  {
    assert s[0].Has(s[0].addr) && In(s, s[0].addr) && In(t, s[0].addr);
    var i :| 0 <= i < |t| && t[i].Has(s[0].addr);
    assert i > 0 ==> t[0].End() < t[i].addr;
  }

  lemma FirstGap(s: seq<Chunk>)
    requires Canonical(s) && s != []
    ensures !In(s, s[0].End())
  {
  }

  lemma LastOfHead(s: seq<Chunk>, t: seq<Chunk>)
    requires Canonical(s) && Canonical(t) && SameBytes(s, t) && s != [] && t != []
    requires s[0].addr == t[0].addr && !In(t, t[0].End())
    ensures s[0].End() <= t[0].End()
  {
    if s[0].End() > t[0].End() {
      assert s[0].Has(t[0].End());
    }
  }

  // ------------------------------------------------------------------ adding a chunk

  /** `k` is where a chunk `c`, overlapping nothing in `s`, belongs. */
  ghost predicate Fits(s: seq<Chunk>, k: nat, c: Chunk) {
    && k <= |s| && c.len > 0
    && (forall i :: 0 <= i < k ==> s[i].End() <= c.addr)
    && (forall i :: k <= i < |s| ==> c.End() <= s[i].addr)
  }

  predicate TouchesLeft(s: seq<Chunk>, k: nat, c: Chunk) {
    0 < k <= |s| && s[k - 1].End() == c.addr
  }

  predicate TouchesRight(s: seq<Chunk>, k: nat, c: Chunk) {
    k < |s| && c.End() == s[k].addr
  }

  function JoinFrom(s: seq<Chunk>, k: nat, c: Chunk): (i: nat)
    requires k <= |s|
    ensures i <= k
  {
    if TouchesLeft(s, k, c) then k - 1 else k
  }

  function JoinTo(s: seq<Chunk>, k: nat, c: Chunk): (j: nat)
    requires k <= |s|
    ensures k <= j <= |s|
  {
    if TouchesRight(s, k, c) then k + 1 else k
  }

  /** `c` together with the neighbours it touches. */
  function Joined(s: seq<Chunk>, k: nat, c: Chunk): Chunk
    requires k <= |s|
  {
    var start := if TouchesLeft(s, k, c) then s[k - 1].addr else c.addr;
    var end := if TouchesRight(s, k, c) then s[k].End() else c.End();
    Chunk(start, end - start)
  }

  function Join(s: seq<Chunk>, k: nat, c: Chunk): seq<Chunk>
    requires k <= |s|
  {
    Splice(s, JoinFrom(s, k, c), JoinTo(s, k, c), [Joined(s, k, c)])
  }

  lemma JoinCanonical(s: seq<Chunk>, k: nat, c: Chunk)
    requires Canonical(s) && Fits(s, k, c)
    ensures Canonical(Join(s, k, c))
  {
    var i0, j0, m := JoinFrom(s, k, c), JoinTo(s, k, c), Joined(s, k, c);
    assert forall i :: 0 <= i < i0 ==> s[i].End() < m.addr;
    assert forall i :: j0 <= i < |s| ==> m.End() < s[i].addr;
    SpliceCanonical(s, i0, j0, [m]);
  }

  lemma JoinBytes(s: seq<Chunk>, k: nat, c: Chunk, b: int)
    requires Canonical(s) && Fits(s, k, c)
    ensures In(Join(s, k, c), b) <==> In(s, b) || c.Has(b)
  {
    var i0, j0, m := JoinFrom(s, k, c), JoinTo(s, k, c), Joined(s, k, c);
    InSplice(s, i0, j0, [m], b);
    InSplit(s, i0, j0, b);
    assert In([m], b) <==> [m][0].Has(b);
    JoinMiddle(s, k, c, b);
  }

  lemma JoinMiddle(s: seq<Chunk>, k: nat, c: Chunk, b: int)
    requires Canonical(s) && Fits(s, k, c)
    ensures Joined(s, k, c).Has(b) <==> In(s[JoinFrom(s, k, c)..JoinTo(s, k, c)], b) || c.Has(b)
  {
    hide In;
    var mid := s[JoinFrom(s, k, c)..JoinTo(s, k, c)];
    if TouchesLeft(s, k, c) && TouchesRight(s, k, c) {
      assert mid == [s[k - 1]] + [s[k]];
      InConcat([s[k - 1]], [s[k]], b);
      InOne(s[k - 1], b);
      InOne(s[k], b);
    } else if TouchesLeft(s, k, c) {
      assert mid == [s[k - 1]];
      InOne(s[k - 1], b);
    } else if TouchesRight(s, k, c) {
      assert mid == [s[k]];
      InOne(s[k], b);
    } else {
      assert mid == [];
      InNone(b);
    }
    assert k > 0 ==> s[k - 1].len > 0;
    assert k < |s| ==> s[k].len > 0;
  }

  lemma InOne(c: Chunk, b: int)
    ensures In([c], b) <==> c.Has(b)
  {
    assert [c][0] == c;
  }

  lemma InNone(b: int)
    ensures !In([], b)
  {
  }

  lemma MiddleSum(s: seq<Chunk>, k: nat, c: Chunk)
    requires k <= |s|
    ensures Sum(s[JoinFrom(s, k, c)..JoinTo(s, k, c)]) == Joined(s, k, c).len - c.len
  {
    if TouchesLeft(s, k, c) && TouchesRight(s, k, c) {
      assert s[k - 1..k + 1] == [s[k - 1]] + [s[k]];
      SumConcat([s[k - 1]], [s[k]]);
    } else if TouchesLeft(s, k, c) {
      assert s[k - 1..k] == [s[k - 1]];
    } else if TouchesRight(s, k, c) {
      assert s[k..k + 1] == [s[k]];
    }
  }

  lemma JoinSum(s: seq<Chunk>, k: nat, c: Chunk)
    requires k <= |s|
    ensures Sum(Join(s, k, c)) == Sum(s) + c.len
  {
    MiddleSum(s, k, c);
    SumSplice(s, JoinFrom(s, k, c), JoinTo(s, k, c), [Joined(s, k, c)]);
  }

  /** Disjointness from every chunk is enough to have a place in the order. */
  lemma {:induction false} PlaceExists(s: seq<Chunk>, c: Chunk) returns (k: nat)
    requires Canonical(s) && c.len > 0
    requires forall b :: c.Has(b) ==> !In(s, b)
    ensures Fits(s, k, c)
  {
    k := 0;
    while k < |s| && s[k].addr < c.addr
      invariant k <= |s| && forall i :: 0 <= i < k ==> s[i].addr < c.addr
    {
      k := k + 1;
    }
    forall i | 0 <= i < |s| ensures if i < k then s[i].End() <= c.addr else c.End() <= s[i].addr {
      assert k < i ==> s[k].End() < s[i].addr;
      NoCommonByte(s, c, i);
    }
  }

  lemma NoCommonByte(s: seq<Chunk>, c: Chunk, i: nat)
    requires i < |s| && s[i].len > 0 && c.len > 0
    requires forall b :: c.Has(b) ==> !In(s, b)
    ensures s[i].End() <= c.addr || c.End() <= s[i].addr
  {
    if s[i].addr <= c.addr < s[i].End() {
      assert s[i].Has(c.addr) && c.Has(c.addr);
    } else if c.addr <= s[i].addr < c.End() {
      assert s[i].Has(s[i].addr) && c.Has(s[i].addr);
    }
  }

  /** Any canonical list of the bytes of `s` and `c` is `Join`; so its total is known too. */
  lemma JoinIsTheOnly(s: seq<Chunk>, k: nat, c: Chunk, t: seq<Chunk>)
    requires Canonical(s) && Fits(s, k, c) && Canonical(t)
    requires forall b :: In(t, b) <==> In(s, b) || c.Has(b)
    ensures t == Join(s, k, c)
  {
    JoinCanonical(s, k, c);
    forall b ensures In(t, b) <==> In(Join(s, k, c), b) {
      JoinBytes(s, k, c, b);
    }
    CanonicalUnique(t, Join(s, k, c));
  }

  // ------------------------------------------------------------------ joining step by step

  /** `c` together with the lower neighbour it touches. */
  function JoinedLeft(s: seq<Chunk>, k: nat, c: Chunk): Chunk
    requires k <= |s|
  {
    var start := if TouchesLeft(s, k, c) then s[k - 1].addr else c.addr;
    Chunk(start, c.End() - start)
  }

  lemma InsertIsSplice(s: seq<Chunk>, k: nat, c: Chunk)
    requires k <= |s|
    ensures Insert(s, k, c) == Splice(s, k, k, [c])
  {
  }

  lemma LeftMerge(s: seq<Chunk>, k: nat, c: Chunk, x: Chunk)
    requires 0 < k <= |s|
    ensures Remove(Insert(s, k, c)[k - 1 := x], k) == Splice(s, k - 1, k, [x])
  {
  }

  lemma RightMerge(s: seq<Chunk>, i: nat, k: nat, x: Chunk, y: Chunk)
    requires i <= k < |s|
    ensures |Splice(s, i, k, [x])| > i + 1 && Splice(s, i, k, [x])[i] == x && Splice(s, i, k, [x])[i + 1] == s[k]
    ensures Remove(Splice(s, i, k, [x])[i := y], i + 1) == Splice(s, i, k + 1, [y])
  {
  }

  lemma JoinWithNext(s: seq<Chunk>, k: nat, c: Chunk)
    requires k <= |s| && TouchesRight(s, k, c)
    ensures Join(s, k, c) == Splice(s, JoinFrom(s, k, c), k + 1, [Joined(s, k, c)])
  {
  }

  lemma JoinStart(s: seq<Chunk>, k: nat, c: Chunk)
    requires k <= |s|
    ensures JoinedLeft(s, k, c).addr == Joined(s, k, c).addr
  {
  }

  lemma JoinWithoutNext(s: seq<Chunk>, k: nat, c: Chunk)
    requires k <= |s| && !TouchesRight(s, k, c)
    ensures Join(s, k, c) == Splice(s, JoinFrom(s, k, c), k, [JoinedLeft(s, k, c)])
  {
  }

  ghost predicate BytesIn(s: seq<Chunk>, t: seq<Chunk>) {
    forall b :: In(s, b) ==> In(t, b)
  }

  lemma JoinContains(s: seq<Chunk>, k: nat, c: Chunk)
    requires Canonical(s) && Fits(s, k, c)
    ensures BytesIn(Insert(s, k, c), Join(s, k, c))
    ensures BytesIn(Splice(s, JoinFrom(s, k, c), k, [JoinedLeft(s, k, c)]), Join(s, k, c))
  {
    var i := JoinFrom(s, k, c);
    forall b ensures In(Insert(s, k, c), b) ==> In(Join(s, k, c), b) {
      InsertIsSplice(s, k, c);
      InSplice(s, k, k, [c], b);
      InSplit(s, k, k, b);
      JoinBytes(s, k, c, b);
    }
    forall b ensures In(Splice(s, i, k, [JoinedLeft(s, k, c)]), b) ==> In(Join(s, k, c), b) {
      InSplice(s, i, k, [JoinedLeft(s, k, c)], b);
      InSplit(s, i, k, b);
      JoinBytes(s, k, c, b);
      assert TouchesLeft(s, k, c) ==> s[i..k][0] == s[k - 1];
    }
  }
}
