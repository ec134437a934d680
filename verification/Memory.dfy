/**
 Bytes of a memory of words, little-endian, and the byte copy of string.c.

 Word `w[a]`, for `a` a multiple of 4, holds the bytes at `a` to `a + 3`; the other cells of `w` are no part of memory.
 */
module Memory {
  import opened Rounding

  predicate Byte(v: int) {
    0 <= v < 256
  }

  function Pow256(j: nat): int
    requires j < 4
  {
    if j == 0 then 1 else if j == 1 then 256 else if j == 2 then 65536 else 16777216
  }

  function ByteOf(x: int, j: nat): (v: int)
    requires j < 4
    ensures Byte(v)
  {
    x / Pow256(j) % 256
  }

  /** `x` with byte `j` replaced by `v`. */
  function PutByte(x: int, j: nat, v: int): int
    requires j < 4
  {
    x + (v - ByteOf(x, j)) * Pow256(j)
  }

  function WordAddress(a: int): int {
    a - a % 4
  }

  /** Byte `a` of memory `w`. */
  function ByteAt(w: seq<int>, a: int): int
    requires 0 <= a < |w|
  {
    ByteOf(w[WordAddress(a)], a % 4)
  }

  /** The bytes of a number given by its digits to the base 256; the last digit is not reduced. */
  lemma Digits(x: int, b0: int, b1: int, b2: int, q: int)
    requires Byte(b0) && Byte(b1) && Byte(b2) && x == b0 + 256 * b1 + 65536 * b2 + 16777216 * q
    ensures ByteOf(x, 0) == b0 && ByteOf(x, 1) == b1 && ByteOf(x, 2) == b2 && ByteOf(x, 3) == q % 256
  {
    var r, t := b1 + 256 * b2 + 65536 * q, b2 + 256 * q;
    assert x / 1 == x;
    DivisionUnique(x, 256, r, b0);
    DivisionUnique(r, 256, t, b1);
    DivisionUnique(t, 256, q, b2);
    DivisionUnique(x, 65536, t, b0 + 256 * b1);
    DivisionUnique(x, 16777216, q, b0 + 256 * b1 + 65536 * b2);
  }

  lemma TakeDigits(x: int) returns (b0: int, b1: int, b2: int, q: int)
    ensures Byte(b0) && Byte(b1) && Byte(b2) && x == b0 + 256 * b1 + 65536 * b2 + 16777216 * q
  {
    b0, b1, b2, q := x % 256, x / 256 % 256, x / 256 / 256 % 256, x / 256 / 256 / 256;
  }

  /** Replacing one byte of a word leaves its other bytes. */
  lemma PutByteLaw(x: int, j: nat, v: int, i: nat)
    requires i < 4 && j < 4 && Byte(v)
    ensures ByteOf(PutByte(x, j, v), i) == if i == j then v else ByteOf(x, i)
  {
    hide ByteOf;
    var b0, b1, b2, q := TakeDigits(x);
    Digits(x, b0, b1, b2, q);
    var y := PutByte(x, j, v);
    if j == 0 {
      Digits(y, v, b1, b2, q);
    } else if j == 1 {
      Digits(y, b0, v, b2, q);
    } else if j == 2 {
      Digits(y, b0, b1, v, q);
    } else {
      assert (q + v - q % 256) % 256 == v;
      Digits(y, b0, b1, b2, q + v - q % 256);
    }
  }

  /** The word at `y` has no byte in `a .. a + n`. */
  predicate Clear(y: int, a: int, n: int) {
    y % 4 != 0 || y + 4 <= a || a + n <= y
  }

  lemma StoreLaw(w: seq<int>, a: nat, v: int, x: nat)
    requires a < |w| && x < |w| && Byte(v)
    ensures var w' := w[WordAddress(a) := PutByte(w[WordAddress(a)], a % 4, v)];
      ByteAt(w', x) == if x == a then v else ByteAt(w, x)
  {
    hide PutByte, ByteOf;
    PutByteLaw(w[WordAddress(a)], a % 4, v, x % 4);
  }

  method StoreByte(ram: array<int>, a: nat, v: int)
    requires a < ram.Length && Byte(v)
    modifies ram
    ensures forall x: nat :: x < ram.Length ==> ByteAt(ram[..], x) == if x == a then v else ByteAt(old(ram[..]), x)
    ensures forall y :: 0 <= y < ram.Length && Clear(y, a, 1) ==> ram[y] == old(ram[y])
  {
    hide PutByte, ByteOf, ByteAt;
    ghost var w := ram[..];
    ram[WordAddress(a)] := PutByte(ram[WordAddress(a)], a % 4, v);
    assert ram[..] == w[WordAddress(a) := PutByte(w[WordAddress(a)], a % 4, v)];
    forall x: nat | x < ram.Length ensures ByteAt(ram[..], x) == if x == a then v else ByteAt(w, x) {
      StoreLaw(w, a, v, x);
    }
  }

  /**
   Where the byte that a forward copy leaves at distance `i` came from: when the destination starts inside the source,
   the bytes before it are repeated over and over.
   */
  function Origin(dest: nat, src: nat, i: nat): (o: nat)
    ensures src <= o <= src + i
  {
    if src < dest then
      ModBelow(i, dest - src);
      src + i % (dest - src)
    else
      src + i
  }

  lemma OriginStep(dest: nat, src: nat, i: nat)
    requires src < dest <= src + i
    ensures Origin(dest, src, i - (dest - src)) == Origin(dest, src, i)
  {
    var d := dest - src;
    assert i == d * (i / d) + i % d;
    assert d * (i / d - 1) == d * (i / d) - d;
    DivisionUnique(i - d, d, i / d - 1, i % d);
  }

  /** Where the copied byte at distance `i` comes from: its own source byte, or what was copied `dest - src` bytes before. */
  lemma OriginForward(dest: nat, src: nat, i: nat)
    ensures dest <= src || i < dest - src ==> Origin(dest, src, i) == src + i
    ensures src < dest && i >= dest - src ==> Origin(dest, src, i) == Origin(dest, src, i - (dest - src))
  {
    if src < dest && i < dest - src {
      DivisionUnique(i, dest - src, 0, i);
    } else if src < dest {
      OriginStep(dest, src, i);
    }
  }

  /** `memcpy` is a forward byte copy. Nothing outside the destination changes, overlap or not. */
  method Memcpy(ram: array<int>, dest: nat, src: nat, count: nat)
    requires dest + count <= ram.Length && src + count <= ram.Length
    modifies ram
    ensures forall i: nat :: i < count ==> ByteAt(ram[..], dest + i) == ByteAt(old(ram[..]), Origin(dest, src, i))
    ensures forall x: nat :: x < ram.Length && !(dest <= x < dest + count) ==>
      ByteAt(ram[..], x) == ByteAt(old(ram[..]), x)
    ensures forall y :: 0 <= y < ram.Length && Clear(y, dest, count) ==> ram[y] == old(ram[y])
  {
    hide ByteAt, ByteOf, Origin;
    ghost var w := ram[..];
    var n := 0;
    while n < count
      invariant n <= count
      invariant forall i: nat :: i < n ==> ByteAt(ram[..], dest + i) == ByteAt(w, Origin(dest, src, i))
      invariant forall x: nat :: x < ram.Length && !(dest <= x < dest + n) ==> ByteAt(ram[..], x) == ByteAt(w, x)
      invariant forall y :: 0 <= y < ram.Length && Clear(y, dest, n) ==> ram[y] == w[y]
    {
      OriginRead(ram[..], w, dest, src, count, n);
      var v := LoadByte(ram, src + n);
      StoreByte(ram, dest + n, v);
      n := n + 1;
    }
  }

  method LoadByte(ram: array<int>, a: nat) returns (v: int)
    requires a < ram.Length
    ensures v == ByteAt(ram[..], a) && Byte(v)
  {
    v := ByteOf(ram[WordAddress(a)], a % 4);
  }

  lemma ModBelow(i: nat, d: nat)
    requires d > 0
    ensures 0 <= i % d <= i
  {
  }

  /** The byte read at distance `n` is the one the copy is specified to store there. */
  lemma OriginRead(now: seq<int>, w: seq<int>, dest: nat, src: nat, count: nat, n: nat)
    requires n < count && |now| == |w| && dest + count <= |w| && src + count <= |w|
    requires forall i: nat :: i < n ==> ByteAt(now, dest + i) == ByteAt(w, Origin(dest, src, i))
    requires forall x: nat :: x < |w| && !(dest <= x < dest + n) ==> ByteAt(now, x) == ByteAt(w, x)
    ensures ByteAt(now, src + n) == ByteAt(w, Origin(dest, src, n))
  {
    if src < dest <= src + n {
      OriginStep(dest, src, n);
      assert src + n == dest + (n - (dest - src));
    } else if src < dest {
      DivisionUnique(n, dest - src, 0, n);
    }
  }
}
