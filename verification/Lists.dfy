/**
 Intrusive doubly linked lists (include/list.h) in a flat memory of words.

 `w[a]` is the 32-bit word stored at byte address `a`; only multiples of 4 are ever used as addresses
 of words. A node at address `a` keeps its `prev` pointer at `a` and its `next` pointer at `a + 4`.
 A list is a ring: a sentinel node, whose address names the list, and the nodes linked through it.
 */
module Lists {
  const NULL := 0
  const NEXT := 4
  const NODE_SIZE := 8

  function Insert<T>(s: seq<T>, k: nat, x: T): seq<T>
    requires k <= |s|
  {
    s[..k] + [x] + s[k..]
  }

  function Remove<T>(s: seq<T>, k: nat): seq<T>
    requires k < |s|
  {
    s[..k] + s[k + 1..]
  }

  /** Once around the ring, from the sentinel back to the sentinel. */
  function Cycle(list: int, nodes: seq<int>): seq<int> {
    [list] + nodes + [list]
  }

  predicate Apart(a: int, b: int) {
    a + NODE_SIZE <= b || b + NODE_SIZE <= a
  }

  /** The nodes of cycle `c` are inside memory and, up to the sentinel occurring at both ends, overlap nowhere. */
  ghost predicate Placed(limit: int, c: seq<int>) {
    && (forall i :: 0 <= i < |c| ==> 0 < c[i] && c[i] + NODE_SIZE <= limit)
    && (forall i, j :: 0 <= i < j < |c| ==> Apart(c[i], c[j]) || (i == 0 && j == |c| - 1))
  }

  /** Along `c`, every `next` leads to the following node and that node's `prev` leads back. */
  ghost predicate Linked(w: seq<int>, c: seq<int>)
    requires forall i :: 0 <= i < |c| ==> 0 < c[i] && c[i] + NODE_SIZE <= |w|
  {
    forall i, j :: 0 <= i && j == i + 1 && j < |c| ==> w[c[i] + NEXT] == c[j] && w[c[j]] == c[i]
  }

  /** The ring named `list` holds exactly `nodes`, in this order. */
  ghost predicate Ring(w: seq<int>, list: int, nodes: seq<int>) {
    Placed(|w|, Cycle(list, nodes)) && Linked(w, Cycle(list, nodes))
  }

  /** `a` is none of the words that linking or unlinking `item` between `p` and `n` may write. */
  predicate Untouched(a: int, item: int, p: int, n: int) {
    a != item && a != item + NEXT && a != p + NEXT && a != n
  }

  /** Between two memories nothing changed but the words that (un)linking `item` between `p` and `n` writes. */
  ghost predicate OnlyLinks(w: seq<int>, w': seq<int>, item: int, p: int, n: int) {
    |w'| == |w| && forall a :: 0 <= a < |w| && Untouched(a, item, p, n) ==> w'[a] == w[a]
  }

  // ------------------------------------------------------------------ links and sequence edits

  /** Linking `item` between two neighbours of a cycle yields the cycle with `item` inserted there. */
  lemma InsertLinks(w: seq<int>, w': seq<int>, c: seq<int>, d: seq<int>, k: nat, item: int)
    requires k + 1 < |c| && c[0] == c[|c| - 1] && d == Insert(c, k + 1, item) && d[k + 1] == item
    requires Placed(|w|, c) && Placed(|w|, d) && Linked(w, c)
    requires OnlyLinks(w, w', item, c[k], c[k + 1])
    requires w'[item] == c[k] && w'[item + NEXT] == c[k + 1] && w'[c[k] + NEXT] == item && w'[c[k + 1]] == item
    ensures Linked(w', d)
  {
    assert d[k] == c[k] && d[k + 2] == c[k + 1];
    forall i, j | 0 <= i && j == i + 1 && j < |d| ensures w'[d[i] + NEXT] == d[j] && w'[d[j]] == d[i] {
      if i < k || i > k + 1 {
        assert if i < k then d[i] == c[i] && d[j] == c[j] else d[i] == c[i - 1] && d[j] == c[i];
        assert Untouched(d[i] + NEXT, item, c[k], c[k + 1]);
        assert Untouched(d[j], item, c[k], c[k + 1]);
      }
    }
  }

  /** Making the neighbours of node `k + 1` point at each other yields the cycle without that node. */
  lemma RemoveLinks(w: seq<int>, w': seq<int>, c: seq<int>, d: seq<int>, k: nat)
    requires k + 2 < |c| && d == Remove(c, k + 1)
    requires Placed(|w|, c) && Placed(|w|, d) && Linked(w, c)
    requires OnlyLinks(w, w', c[k + 1], c[k], c[k + 2])
    requires w'[c[k] + NEXT] == c[k + 2] && w'[c[k + 2]] == c[k]
    ensures Linked(w', d)
  {
    assert d[k] == c[k] && d[k + 1] == c[k + 2];
    forall i, j | 0 <= i && j == i + 1 && j < |d| ensures w'[d[i] + NEXT] == d[j] && w'[d[j]] == d[i] {
      if i < k || i > k {
        assert if i < k then d[i] == c[i] && d[j] == c[j] else d[i] == c[i + 1] && d[j] == c[i + 2];
        assert Untouched(d[i] + NEXT, c[k + 1], c[k], c[k + 2]);
        assert Untouched(d[j], c[k + 1], c[k], c[k + 2]);
      }
    }
  }

  /** A ring is unaffected by writes outside the words of its nodes. */
  lemma RingFrame(w: seq<int>, w': seq<int>, list: int, nodes: seq<int>)
    requires Ring(w, list, nodes) && |w'| == |w|
    requires forall i :: 0 <= i < |nodes| + 2 ==>
      var a := Cycle(list, nodes)[i]; w'[a] == w[a] && w'[a + NEXT] == w[a + NEXT]
    ensures Ring(w', list, nodes)
  {
  }

  lemma CycleInsert(list: int, nodes: seq<int>, k: nat, item: int)
    requires k <= |nodes|
    ensures Cycle(list, Insert(nodes, k, item)) == Insert(Cycle(list, nodes), k + 1, item)
    ensures Cycle(list, Insert(nodes, k, item))[k + 1] == item
  {
  }

  lemma CycleRemove(list: int, nodes: seq<int>, k: nat)
    requires k < |nodes|
    ensures Cycle(list, Remove(nodes, k)) == Remove(Cycle(list, nodes), k + 1)
  {
  }

  lemma CycleAt(list: int, nodes: seq<int>, i: nat)
    requires i <= |nodes| + 1
    ensures Cycle(list, nodes)[i] == if 1 <= i <= |nodes| then nodes[i - 1] else list
  {
  }

  lemma PlacedRemove(limit: int, c: seq<int>, k: nat)
    requires 0 < k < |c| - 1 && Placed(limit, c)
    ensures Placed(limit, Remove(c, k))
  {
  }

  /** Memory determines the list: no two sequences describe the same ring. */
  lemma RingIsUnique(w: seq<int>, list: int, a: seq<int>, b: seq<int>)
    requires Ring(w, list, a) && Ring(w, list, b)
    ensures a == b
  {
    if |a| <= |b| {
      RingPrefix(w, list, a, b, |a|);
      RingEnds(w, list, a, b);
    } else {
      RingPrefix(w, list, b, a, |b|);
      RingEnds(w, list, b, a);
    }
  }

  lemma {:induction false} RingPrefix(w: seq<int>, list: int, a: seq<int>, b: seq<int>, n: nat)
    requires Ring(w, list, a) && Ring(w, list, b) && n <= |a| && n <= |b|
    ensures a[..n] == b[..n]
  {
    if n == 0 {
    } else {
      RingPrefix(w, list, a, b, n - 1);
      var c, d := Cycle(list, a), Cycle(list, b);
      CycleAt(list, a, n - 1);
      CycleAt(list, b, n - 1);
      assert n == 1 || (a[n - 2] == a[..n - 1][n - 2] && b[n - 2] == b[..n - 1][n - 2]);
      assert c[n - 1] == d[n - 1];
      assert c[n] == d[n];
      CycleAt(list, a, n);
      CycleAt(list, b, n);
      assert a[..n] == a[..n - 1] + [a[n - 1]];
      assert b[..n] == b[..n - 1] + [b[n - 1]];
    }
  }

  lemma RingEnds(w: seq<int>, list: int, a: seq<int>, b: seq<int>)
    requires Ring(w, list, a) && Ring(w, list, b) && |a| <= |b| && a[..|a|] == b[..|a|]
    ensures a == b
  {
    var c, d, n := Cycle(list, a), Cycle(list, b), |a|;
    CycleAt(list, a, n);
    CycleAt(list, b, n);
    assert n == 0 || (a[n - 1] == a[..n][n - 1] && b[n - 1] == b[..n][n - 1]);
    assert c[n] == d[n];
    assert c[n + 1] == d[n + 1] == list;
    assert d[0] == list && !Apart(d[0], d[n + 1]);
  }

  // ------------------------------------------------------------------ operations

  method ListInitialize(ram: array<int>, list: int)
    requires 0 < list && list + NODE_SIZE <= ram.Length
    modifies ram
    ensures Ring(ram[..], list, [])
    ensures forall a :: 0 <= a < ram.Length && a != list && a != list + NEXT ==> ram[a] == old(ram[a])
  {
    ram[list] := list;
    ram[list + NEXT] := list;
  }

  /** Links `item` right after `entry`. On the sentinel this adds at the head of the list (`list_add_after`). */
  method ListAddHead(ram: array<int>, entry: int, item: int, ghost list: int, ghost nodes: seq<int>, ghost k: nat)
    requires Ring(ram[..], list, nodes) && k <= |nodes| && entry == Cycle(list, nodes)[k]
    requires Placed(ram.Length, Cycle(list, Insert(nodes, k, item)))
    modifies ram
    ensures Ring(ram[..], list, Insert(nodes, k, item))
    ensures OnlyLinks(old(ram[..]), ram[..], item, entry, Cycle(list, nodes)[k + 1])
  {
    ghost var c, n := Cycle(list, nodes), Cycle(list, nodes)[k + 1];
    CycleInsert(list, nodes, k, item);
    assert ram[..][entry + NEXT] == n;
    assert Apart(Insert(c, k + 1, item)[k], item) && Apart(item, Insert(c, k + 1, item)[k + 2]);
    ram[item + NEXT] := ram[entry + NEXT];
    ram[item] := entry;
    ram[ram[entry + NEXT]] := item;
    ram[entry + NEXT] := item;
    InsertLinks(old(ram[..]), ram[..], c, Insert(c, k + 1, item), k, item);
  }

  /** Links `item` right before `entry`. On the sentinel this adds at the tail of the list (`list_add_before`). */
  method ListAddTail(ram: array<int>, entry: int, item: int, ghost list: int, ghost nodes: seq<int>, ghost k: nat)
    requires Ring(ram[..], list, nodes) && k <= |nodes| && entry == Cycle(list, nodes)[k + 1]
    requires Placed(ram.Length, Cycle(list, Insert(nodes, k, item)))
    modifies ram
    ensures Ring(ram[..], list, Insert(nodes, k, item))
    ensures OnlyLinks(old(ram[..]), ram[..], item, Cycle(list, nodes)[k], entry)
  {
    ghost var c, p := Cycle(list, nodes), Cycle(list, nodes)[k];
    CycleInsert(list, nodes, k, item);
    assert ram[..][entry] == p;
    assert Apart(Insert(c, k + 1, item)[k], item) && Apart(item, Insert(c, k + 1, item)[k + 2]);
    ram[item] := ram[entry];
    ram[item + NEXT] := entry;
    ram[ram[entry] + NEXT] := item;
    ram[entry] := item;
    InsertLinks(old(ram[..]), ram[..], c, Insert(c, k + 1, item), k, item);
  }

  method ListDelete(ram: array<int>, item: int, ghost list: int, ghost nodes: seq<int>, ghost k: nat)
    requires Ring(ram[..], list, nodes) && k < |nodes| && item == nodes[k]
    modifies ram
    ensures Ring(ram[..], list, Remove(nodes, k))
    ensures 0 < item && item + NODE_SIZE <= ram.Length && ram[item] == ram[item + NEXT] == NULL
    ensures OnlyLinks(old(ram[..]), ram[..], item, Cycle(list, nodes)[k], Cycle(list, nodes)[k + 2])
  {
    ghost var c, p, n := Cycle(list, nodes), Cycle(list, nodes)[k], Cycle(list, nodes)[k + 2];
    CycleRemove(list, nodes, k);
    PlacedRemove(ram.Length, c, k + 1);
    assert c[k + 1] == item;
    assert ram[..][item] == p && ram[..][item + NEXT] == n;
    ram[ram[item + NEXT]] := ram[item];
    ram[ram[item] + NEXT] := ram[item + NEXT];
    ram[item] := NULL;
    ram[item + NEXT] := NULL;
    RemoveLinks(old(ram[..]), ram[..], c, Remove(c, k + 1), k);
  }

  /** Unlinks and returns the first node, or returns NULL when the list is empty. */
  method ListRemoveHead(ram: array<int>, list: int, ghost nodes: seq<int>) returns (item: int)
    requires Ring(ram[..], list, nodes)
    modifies ram
    ensures nodes == [] ==> item == NULL && ram[..] == old(ram[..])
    ensures nodes != [] ==> item == nodes[0] && Ring(ram[..], list, nodes[1..])
                            && 0 < item && item + NODE_SIZE <= ram.Length && ram[item] == ram[item + NEXT] == NULL
                            && OnlyLinks(old(ram[..]), ram[..], item, list, Cycle(list, nodes)[2])
  {
    ghost var c := Cycle(list, nodes);
    assert c[0] == list;
    CycleAt(list, nodes, 1);
    assert ram[..][list + NEXT] == c[1];
    assert nodes != [] ==> Apart(c[0], c[1]);
    if ram[list + NEXT] != list {
      item := ram[list + NEXT];
      ListDelete(ram, item, list, nodes, 0);
      assert Remove(nodes, 0) == nodes[1..];
    } else {
      item := NULL;
    }
  }

  /** The node before `item`, or NULL when `item` is the first. */
  method ListPrev(ram: array<int>, list: int, item: int, ghost nodes: seq<int>, ghost k: nat) returns (r: int)
    requires Ring(ram[..], list, nodes) && k < |nodes| && item == nodes[k]
    ensures r == if k == 0 then NULL else nodes[k - 1]
  {
    ghost var c := Cycle(list, nodes);
    CycleAt(list, nodes, k);
    assert c[k + 1] == item && ram[..][item] == c[k];
    assert k > 0 ==> Apart(c[0], c[k]);
    r := if ram[item] != list then ram[item] else NULL;
  }

  /** The node after `item`, or NULL when `item` is the last. */
  method ListNext(ram: array<int>, list: int, item: int, ghost nodes: seq<int>, ghost k: nat) returns (r: int)
    requires Ring(ram[..], list, nodes) && k < |nodes| && item == nodes[k]
    ensures r == if k == |nodes| - 1 then NULL else nodes[k + 1]
  {
    ghost var c := Cycle(list, nodes);
    CycleAt(list, nodes, k + 2);
    assert c[k + 1] == item && ram[..][item + NEXT] == c[k + 2];
    assert k < |nodes| - 1 ==> Apart(c[0], c[k + 2]);
    r := if ram[item + NEXT] != list then ram[item + NEXT] else NULL;
  }

  /** Walks the ring with `list_for_every`; `visited` records the nodes in the order the walk meets them. */
  method ListLength(ram: array<int>, list: int, ghost nodes: seq<int>) returns (cnt: nat, ghost visited: seq<int>)
    requires Ring(ram[..], list, nodes)
    ensures cnt == |nodes| && visited == nodes
  {
    ghost var c := Cycle(list, nodes);
    cnt, visited := 0, [];
    assert ram[..][c[0] + NEXT] == c[1];
    var node := ram[list + NEXT];
    while node != list
      invariant cnt <= |nodes| && node == c[cnt + 1]
      invariant visited == nodes[..cnt]
      decreases |nodes| - cnt
    {
      CycleAt(list, nodes, cnt + 1);
      assert ram[..][c[cnt + 1] + NEXT] == c[cnt + 2];
      visited := visited + [node];
      cnt := cnt + 1;
      node := ram[node + NEXT];
    }
    assert cnt < |nodes| ==> Apart(c[0], c[cnt + 1]);
  }
}
