/**
 Whole runs of the allocator: what every interleaving of alloc, free, realloc and trim keeps, and what undoes what.
 */
module HeapRuns {
  import opened Lists
  import opened Chunks
  import opened Rounding
  import opened Arena
  import opened Trim

  /** A call together with the pointer it returned. */
  datatype Op =
    | Alloc(size: int, alignment: int, result: int)
    | Free(ptr: int)
    | Realloc(ptr: int, size: int, result: int)
    | Trim

  ghost predicate Step(a: Arena, op: Op, a': Arena) {
    match op
    case Alloc(size, alignment, p) => size >= 0 && alignment >= 0 && AllocStep(a, size, alignment, p, a')
    case Free(p) => FreeStep(a, p, a')
    case Realloc(p, size, q) => size >= 0 && ReallocStep(a, p, size, q, a')
    case Trim => TrimStep(a, a')
  }

  /** The calls `ops`, made one after the other, take `a` to `z`. */
  ghost predicate Run(a: Arena, ops: seq<Op>, z: Arena)
    decreases |ops|
  {
    if ops == [] then z == a else exists m :: Step(a, ops[0], m) && Run(m, ops[1..], z)
  }

  // ------------------------------------------------------------------ what every run keeps

  lemma StepInv(a: Arena, op: Op, a': Arena)
    requires Inv(a) && Step(a, op, a')
    ensures Inv(a') && a'.base == a.base && a'.len == a.len
  {
    match op
    case Alloc(size, alignment, p) => AllocInv(a, size, alignment, p, a');
    case Free(p) => FreeInv(a, p, a');
    case Realloc(p, size, q) => ReallocInv(a, p, size, q, a');
    case Trim => TrimInv(a, a');
  }

  lemma {:induction false} RunInv(a: Arena, ops: seq<Op>, z: Arena)
    requires Inv(a) && Run(a, ops, z)
    ensures Inv(z) && z.base == a.base && z.len == a.len
    decreases |ops|
  {
    if ops == [] {
    } else {
      var m :| Step(a, ops[0], m) && Run(m, ops[1..], z);
      StepInv(a, ops[0], m);
      RunInv(m, ops[1..], z);
    }
  }

  /**
   In every state reachable from miniheap_init: the free list is the coalesced form of the free bytes, every byte of the
   arena has exactly one owner, and free, live and trimmed bytes add up to the arena.
   */
  lemma Reachable(base: int, len: int, ops: seq<Op>, z: Arena)
    requires Range(base, len) && Run(Initial(base, len), ops, z)
    ensures Canonical(z.free) && AllSized(z.free, base, len)
    ensures forall t :: Canonical(t) && SameBytes(t, z.free) ==> t == z.free
    ensures forall b :: base <= b < base + len ==>
      || (In(z.free, b) && !InLive(z.live, b) && !In(z.trimmed, b))
      || (!In(z.free, b) && InLive(z.live, b) && !In(z.trimmed, b))
      || (!In(z.free, b) && !InLive(z.live, b) && In(z.trimmed, b))
    ensures forall p :: p in z.live ==> Holds(p, z.live[p]) && Inside(z.live[p].extent, base, len)
    ensures forall p, q :: p in z.live && q in z.live && p != q ==> Disjoint(z.live[p].extent, z.live[q].extent)
    ensures Sum(z.free) + SumLive(z.live) + Sum(z.trimmed) == len
  {
    InitialInv(base, len);
    RunInv(Initial(base, len), ops, z);
    forall t | Canonical(t) && SameBytes(t, z.free) ensures t == z.free {
      CanonicalUnique(t, z.free);
    }
  }

  // ------------------------------------------------------------------ alloc

  /** NULL is returned exactly when the alignment is no power of two or the adjusted size exceeds the largest chunk. */
  lemma AllocFailsExactly(a: Arena, size: int, alignment: int, p: int, a': Arena)
    requires Inv(a) && size >= 0 && alignment >= 0 && AllocStep(a, size, alignment, p, a')
    ensures p == NULL <==> !ValidAlignment(alignment) || MaxLen(a.free) < Need(size, alignment)
    ensures p == NULL ==> a' == a
  {
    NeedBounds(size, alignment);
    MaxLenBounds(a.free, Need(size, alignment));
    if ValidAlignment(alignment) && !NoFit(a.free, Need(size, alignment)) {
      var k: nat :| FirstFit(a.free, k, Need(size, alignment)) && IsPlace(p, a.free[k].addr, alignment)
                    && Taken(a, k, size, Need(size, alignment), p, a');
      TakenInv(a, k, size, alignment, p, a');
    }
  }

  /** The first fit behind a successful allocation, and its effect on bytes. */
  lemma AllocWitness(a: Arena, size: int, alignment: int, p: int, a': Arena) returns (k: nat)
    requires Inv(a) && size >= 0 && alignment >= 0 && AllocStep(a, size, alignment, p, a') && p != NULL
    ensures ValidAlignment(alignment) && FirstFit(a.free, k, Need(size, alignment)) && IsPlace(p, a.free[k].addr, alignment)
    ensures Taken(a, k, size, Need(size, alignment), p, a') && p !in a.live
    ensures forall b :: a'.live[p].extent.Has(b) ==> In(a.free, b)
    ensures forall b :: In(a'.free, b) <==> In(a.free, b) && !a'.live[p].extent.Has(b)
  {
    var need := Need(size, alignment);
    k :| FirstFit(a.free, k, need) && IsPlace(p, a.free[k].addr, alignment) && Taken(a, k, size, need, p, a');
    TakenInv(a, k, size, alignment, p, a');
    NeedBounds(size, alignment);
    forall b {
      TakenBytes(a, k, size, need, p, a', b);
    }
  }

  /** What the caller of a successful allocation gets. */
  lemma AllocGives(a: Arena, size: int, alignment: int, p: int, a': Arena)
    requires Inv(a) && size >= 0 && alignment >= 0 && AllocStep(a, size, alignment, p, a') && p != NULL
    ensures p !in a.live && p in a'.live && a'.live[p].size == size && Holds(p, a'.live[p])
    ensures alignment > 0 ==> p % Max(alignment, 16) == 0
    ensures forall b :: a'.live[p].extent.Has(b) ==> In(a.free, b)
    ensures forall b :: In(a'.free, b) <==> In(a.free, b) && !a'.live[p].extent.Has(b)
    ensures forall i :: 0 <= i < |a.free| && a.free[i].addr < a'.live[p].extent.addr ==> a.free[i].len < Need(size, alignment)
    ensures a'.live - {p} == a.live && a'.trimmed == a.trimmed && a'.base == a.base && a'.len == a.len
  {
    hide Inv, Need, IsPlace, Canonical, Holds, In;
    var k := AllocWitness(a, size, alignment, p, a');
    AllocInv(a, size, alignment, p, a');
    LiveHolds(a', p);
    TakenAddress(a, k, size, Need(size, alignment), p, a');
    InvCanonical(a);
    LowerChunks(a.free, k);
    PlaceAligned(p, a.free[k].addr, alignment);
  }

  lemma LiveHolds(a: Arena, p: int)
    requires Inv(a) && p in a.live
    ensures Holds(p, a.live[p])
  {
  }

  lemma InvCanonical(a: Arena)
    requires Inv(a)
    ensures Canonical(a.free)
  {
  }

  lemma PlaceAligned(p: int, addr: int, alignment: int)
    requires IsPlace(p, addr, alignment)
    ensures alignment != 0 ==> p % Max(alignment, 16) == 0
  {
  }

  lemma TakenAddress(a: Arena, k: nat, size: int, need: int, p: int, a': Arena)
    requires k < |a.free| && Taken(a, k, size, need, p, a') && p !in a.live
    ensures p in a'.live && a'.live[p].extent.addr == a.free[k].addr && a'.live[p].size == size
    ensures a'.live - {p} == a.live && a'.trimmed == a.trimmed && a'.base == a.base && a'.len == a.len
  {
  }

  lemma LowerChunks(s: seq<Chunk>, k: nat)
    requires Canonical(s) && k < |s|
    ensures forall i :: 0 <= i < |s| && s[i].addr < s[k].addr ==> i < k
  {
  }

  lemma OneMultiple(p: int, q: int, m: int, x: int)
    requires m > 0 && p % m == 0 && q % m == 0 && x <= p < x + m && x <= q < x + m
    ensures p == q
  {
    var i, j := p / m, q / m;
    assert p == m * i && q == m * j;
    if i > j {
      MulStep(m, i, j);
    } else if j > i {
      MulStep(m, j, i);
    }
  }

  /** The relation pins the outcome of an allocation down, the pointer included. */
  lemma AllocIsDetermined(a: Arena, size: int, alignment: int, p: int, m: Arena, q: int, n: Arena)
    requires Inv(a) && size >= 0 && alignment >= 0
    requires AllocStep(a, size, alignment, p, m) && AllocStep(a, size, alignment, q, n)
    ensures p == q && m == n
  {
    var need := Need(size, alignment);
    if ValidAlignment(alignment) && !NoFit(a.free, need) {
      var i: nat :| FirstFit(a.free, i, need) && IsPlace(p, a.free[i].addr, alignment) && Taken(a, i, size, need, p, m);
      var j: nat :| FirstFit(a.free, j, need) && IsPlace(q, a.free[j].addr, alignment) && Taken(a, j, size, need, q, n);
      assert i == j;
      if alignment > 0 {
        OneMultiple(p, q, Max(alignment, 16), a.free[i].addr + HEADER);
      }
    }
  }

  // ------------------------------------------------------------------ undoing

  /** Freeing what was just allocated restores the arena, free list and all. */
  lemma AllocThenFree(a: Arena, size: int, alignment: int, p: int, m: Arena, z: Arena)
    requires Inv(a) && size >= 0 && alignment >= 0 && AllocStep(a, size, alignment, p, m) && p != NULL
    requires FreeStep(m, p, z)
    ensures z == a
  {
    AllocGives(a, size, alignment, p, m);
    forall b ensures In(z.free, b) <==> In(a.free, b) {
    }
    CanonicalUnique(z.free, a.free);
  }

  ghost predicate OnlyFrees(ops: seq<Op>) {
    forall i :: 0 <= i < |ops| ==> ops[i].Free? && ops[i].ptr != NULL
  }

  function Freed(ops: seq<Op>): set<int>
    requires OnlyFrees(ops)
  {
    set i | 0 <= i < |ops| :: ops[i].ptr
  }

  ghost predicate InFreed(live: map<int, Block>, ps: set<int>, b: int) {
    exists p :: p in ps && p in live && live[p].extent.Has(b)
  }

  /** What any sequence of frees does, in bytes. */
  lemma {:induction false} FreesBytes(a: Arena, ops: seq<Op>, z: Arena)
    requires Inv(a) && OnlyFrees(ops) && Run(a, ops, z)
    ensures z == a.(free := z.free, live := a.live - Freed(ops)) && Canonical(z.free)
    ensures forall b :: In(z.free, b) <==> In(a.free, b) || InFreed(a.live, Freed(ops), b)
    decreases |ops|
  {
    if ops == [] {
      assert a.live - Freed(ops) == a.live;
    } else {
      var p := ops[0].ptr;
      var m :| Step(a, ops[0], m) && Run(m, ops[1..], z);
      StepInv(a, ops[0], m);
      FreesBytes(m, ops[1..], z);
      FreedFirst(ops);
      FreeThenFrees(a, p, m, Freed(ops[1..]), z);
    }
  }

  lemma FreeThenFrees(a: Arena, p: int, m: Arena, ps: set<int>, z: Arena)
    requires FreeStep(a, p, m) && p != NULL && z == m.(free := z.free, live := m.live - ps)
    requires forall b :: In(z.free, b) <==> In(m.free, b) || InFreed(m.live, ps, b)
    ensures z == a.(free := z.free, live := a.live - ({p} + ps))
    ensures forall b :: In(z.free, b) <==> In(a.free, b) || InFreed(a.live, {p} + ps, b)
  {
  }

  lemma FreedFirst(ops: seq<Op>)
    requires OnlyFrees(ops) && ops != []
    ensures Freed(ops) == {ops[0].ptr} + Freed(ops[1..])
  {
    forall i | 0 <= i < |ops| ensures ops[i].ptr in {ops[0].ptr} + Freed(ops[1..]) {
      assert i > 0 ==> ops[i] == ops[1..][i - 1];
    }
    forall i | 0 <= i < |ops[1..]| ensures ops[1..][i].ptr in Freed(ops) {
      assert ops[1..][i] == ops[i + 1];
    }
  }

  /** The order in which blocks are freed does not matter. */
  lemma FreesCommute(a: Arena, xs: seq<Op>, y: Arena, zs: seq<Op>, w: Arena)
    requires Inv(a) && OnlyFrees(xs) && OnlyFrees(zs) && Freed(xs) == Freed(zs)
    requires Run(a, xs, y) && Run(a, zs, w)
    ensures y == w
  {
    FreesBytes(a, xs, y);
    FreesBytes(a, zs, w);
    CanonicalUnique(y.free, w.free);
  }

  lemma StepWithoutTrim(a: Arena, op: Op, a': Arena)
    requires Step(a, op, a') && !op.Trim?
    ensures a'.trimmed == a.trimmed
    decreases op.Realloc?
  {
  }

  lemma {:induction false} RunWithoutTrim(a: Arena, ops: seq<Op>, z: Arena)
    requires Run(a, ops, z) && forall i :: 0 <= i < |ops| ==> !ops[i].Trim?
    ensures z.trimmed == a.trimmed
    decreases |ops|
  {
    if ops == [] {
    } else {
      var m :| Step(a, ops[0], m) && Run(m, ops[1..], z);
      StepWithoutTrim(a, ops[0], m);
      RunWithoutTrim(m, ops[1..], z);
    }
  }

  /** Once every block is freed, in whatever order, and nothing was trimmed, the heap is the single chunk it began as. */
  lemma EverythingFreed(base: int, len: int, ops: seq<Op>, z: Arena)
    requires Range(base, len) && Run(Initial(base, len), ops, z)
    requires (forall i :: 0 <= i < |ops| ==> !ops[i].Trim?) && z.live == map[]
    ensures z == Initial(base, len)
  {
    var a := Initial(base, len);
    InitialInv(base, len);
    RunInv(a, ops, z);
    RunWithoutTrim(a, ops, z);
    forall b ensures In(z.free, b) <==> In(a.free, b) {
      assert !InLive(z.live, b) && !In(z.trimmed, b);
      assert base <= b < base + len ==> a.free[0].Has(b);
    }
    CanonicalUnique(z.free, a.free);
  }
}
