/**
 The floppy image writer (makeflop.c) and the sector loader of the boot block (bootblock.S), which undo each other.
 */
module Floppy {
  import opened Rounding

  type Octet = x: int | 0 <= x < 256

  const SECTOR := 512
  const SECTORS := 18
  const HEADS := 2
  const CYLINDERS := 80
  const DISK := SECTORS * HEADS * CYLINDERS
  /** Both sectors of the loader. */
  const BOOTSECTOR := 1024

  // ------------------------------------------------------------------ the image

  /** Sectors that `size` bytes take. */
  function Blocks(size: nat): nat {
    size / SECTOR + if size % SECTOR != 0 then 1 else 0
  }

  function Zeros(n: nat): seq<Octet> {
    seq(n, i => 0)
  }

  /** The boot block with the number of sectors in its third and fourth byte. */
  function Patched(boot: seq<Octet>, blocks: nat): (r: seq<Octet>)
    requires |boot| == BOOTSECTOR
    ensures |r| == BOOTSECTOR
  {
    boot[2 := blocks % 256][3 := blocks / 256 % 256]
  }

  /** The zeros that make `size` a multiple of `padding`, if that is not 0. */
  function Fill(size: nat, padding: nat): nat {
    if padding != 0 && size % padding != 0 then padding - size % padding else 0
  }

  function Image(boot: seq<Octet>, payload: seq<Octet>, padding: nat): seq<Octet>
    requires |boot| == BOOTSECTOR
  {
    Patched(boot, Blocks(|payload|)) + payload + Zeros(Fill(BOOTSECTOR + |payload|, padding))
  }

  /** The fill is the smallest one. */
  lemma FillLeast(size: nat, padding: nat)
    requires padding > 0
    ensures (size + Fill(size, padding)) % padding == 0 && Fill(size, padding) < padding
  {
    var q := size / padding;
    if size % padding != 0 {
      Successor(padding, q);
      DivisionUnique(size + Fill(size, padding), padding, q + 1, 0);
    }
  }

  lemma Successor(p: nat, q: nat)
    ensures p * (q + 1) == p * q + p
  {
  }

  /** The image byte by byte: the low and the high byte of the number of sectors, the boot block, the payload, zeros. */
  lemma ImageBytes(boot: seq<Octet>, payload: seq<Octet>, padding: nat)
    requires |boot| == BOOTSECTOR
    ensures var image, blocks := Image(boot, payload, padding), (|payload| + 511) / 512;
      && |image| >= 1024 + |payload| && image[2] == blocks % 256 && image[3] == blocks / 256 % 256
      && (forall i :: 0 <= i < 1024 && i != 2 && i != 3 ==> image[i] == boot[i])
      && image[1024..1024 + |payload|] == payload
      && (forall i :: 1024 + |payload| <= i < |image| ==> image[i] == 0)
    ensures padding == 0 ==> |Image(boot, payload, padding)| == 1024 + |payload|
  {
    hide Fill;
    RoundedBlocks(|payload|);
    assert Fill(BOOTSECTOR + |payload|, 0) == 0 by {
      NoFill(BOOTSECTOR + |payload|);
    }
  }

  lemma NoFill(size: nat)
    ensures Fill(size, 0) == 0
  {
  }

  lemma RoundedBlocks(size: nat)
    ensures Blocks(size) == (size + 511) / 512
  {
  }

  /** The main part of makeflop: `size` is what stat said of the payload. */
  method Makeflop(bootsector: array<Octet>, payload: seq<Octet>, padding: nat) returns (image: seq<Octet>)
    requires bootsector.Length == BOOTSECTOR
    modifies bootsector
    ensures image == Image(old(bootsector[..]), payload, padding)
    ensures var blocks := (|payload| + 511) / 512;
      |image| >= 1024 + |payload| && image[2] == blocks % 256 && image[3] == blocks / 256 % 256
  {
    var blocks := |payload| / SECTOR;
    if |payload| % SECTOR != 0 {
      blocks := blocks + 1;
    }
    bootsector[2] := blocks % 256;
    bootsector[3] := blocks / 256 % 256;
    image := bootsector[..];
    assert image == Patched(old(bootsector[..]), blocks);
    var written_bytes, pos := BOOTSECTOR, 0;
    while pos < |payload|
      invariant pos <= |payload| && written_bytes == BOOTSECTOR + pos
      invariant image == Patched(old(bootsector[..]), blocks) + payload[..pos]
    {
      var read_size := if |payload| - pos < SECTOR then |payload| - pos else SECTOR;
      var buf := payload[pos..pos + read_size];
      assert payload[..pos + read_size] == payload[..pos] + buf;
      image := image + buf;
      written_bytes, pos := written_bytes + read_size, pos + read_size;
    }
    assert payload[..pos] == payload;
    ImageBytes(old(bootsector[..]), payload, padding);
    if padding != 0 && written_bytes % padding != 0 {
      image := image + Zeros(padding - written_bytes % padding);
    }
  }

  // ------------------------------------------------------------------ the walk

  /** The number, from 0, of a sector given by cylinder, head and its number, from 1, on the track. */
  function Lba(cylinder: nat, head: nat, sector: nat): (lba: int)
    ensures sector >= 1 ==> lba >= 0
  {
    (cylinder * HEADS + head) * SECTORS + sector - 1
  }

  /** Every sector has one place. */
  lemma PlaceUnique(c: nat, h: nat, s: nat, c': nat, h': nat, s': nat)
    requires h < HEADS && h' < HEADS && 1 <= s <= SECTORS && 1 <= s' <= SECTORS
    ensures Lba(c, h, s) == Lba(c', h', s') <==> c == c' && h == h' && s == s'
  {
  }

  /** The start of the next track follows the last sector of this one. */
  lemma NextTrack(c: nat, h: nat, s: nat)
    requires h < HEADS && 1 <= s <= SECTORS
    ensures Lba(if h == 0 then c else c + 1, 1 - h, 1) == Lba(c, h, s) + (SECTORS + 1 - s)
  {
  }

  const BOUNCE := 0x8000

  /** Bytes `a` to `b` of memory may differ between `w` and `w'`, and those of the buffer at 0x8000. */
  ghost predicate OnlyChanged(w: seq<Octet>, w': seq<Octet>, a: nat, b: nat) {
    |w| == |w'| && forall i :: 0 <= i < |w| && !(a <= i < b) && !(BOUNCE <= i < BOUNCE + SECTORS * SECTOR) ==> w'[i] == w[i]
  }

  /** Interrupt 0x13, function 2, when it succeeds: `al` sectors of one track to 0x8000. */
  method ReadSectors(disk: seq<Octet>, mem: array<Octet>, al: nat, ch: nat, cl: nat, dh: nat)
    requires |disk| == DISK * SECTOR && BOUNCE + SECTORS * SECTOR <= mem.Length
    requires ch < CYLINDERS && dh < HEADS && 1 <= cl && 1 <= al && cl + al <= SECTORS + 1
    modifies mem
    ensures OnlyChanged(old(mem[..]), mem[..], 0, 0)
    ensures 0 <= Lba(ch, dh, cl) && Lba(ch, dh, cl) + al <= DISK
    ensures mem[BOUNCE..BOUNCE + al * SECTOR] == disk[Lba(ch, dh, cl) * SECTOR..(Lba(ch, dh, cl) + al) * SECTOR]
  {
    var from := Lba(ch, dh, cl) * SECTOR;
    var i := 0;
    while i < al * SECTOR
      invariant i <= al * SECTOR && OnlyChanged(old(mem[..]), mem[..], 0, 0)
      invariant mem[BOUNCE..BOUNCE + i] == disk[from..from + i]
    {
      mem[BOUNCE + i] := disk[from + i];
      i := i + 1;
    }
  }

  method MoveDoubleword(mem: array<Octet>, s: nat, d: nat)
    requires s + 4 <= mem.Length && d + 4 <= mem.Length && (d + 4 <= s || s + 4 <= d)
    modifies mem
    ensures forall i :: 0 <= i < mem.Length ==> mem[i] == if d <= i < d + 4 then old(mem[s - d + i]) else old(mem[i])
  {
    mem[d], mem[d + 1], mem[d + 2], mem[d + 3] := mem[s], mem[s + 1], mem[s + 2], mem[s + 3];
  }

  /** `rep movsd`, with `cx` doublewords to go. */
  method MoveString(mem: array<Octet>, esi: nat, edi: nat, cx: nat)
    requires esi + 4 * cx <= mem.Length && edi + 4 * cx <= mem.Length && (edi + 4 * cx <= esi || esi + 4 * cx <= edi)
    modifies mem
    ensures mem[edi..edi + 4 * cx] == old(mem[esi..esi + 4 * cx])
    ensures forall i :: 0 <= i < mem.Length && !(edi <= i < edi + 4 * cx) ==> mem[i] == old(mem[i])
  {
    var k := 0;
    while k < cx
      invariant k <= cx
      invariant forall i :: 0 <= i < mem.Length && !(edi <= i < edi + 4 * k) ==> mem[i] == old(mem[i])
      invariant forall i :: edi <= i < edi + 4 * k ==> mem[i] == old(mem[esi - edi + i])
    {
      MoveDoubleword(mem, esi + 4 * k, edi + 4 * k);
      k := k + 1;
    }
  }

  /** What the loader demands of where it loads to: clear of the buffer it reads sectors into. */
  predicate Clear(edi: nat, n: nat) {
    edi + n * SECTOR <= BOUNCE || BOUNCE + SECTORS * SECTOR <= edi
  }

  /** One read, and the move of what it brought. */
  method ReadAndMove(disk: seq<Octet>, mem: array<Octet>, al: nat, ch: nat, cl: nat, dh: nat, edi: nat)
    requires |disk| == DISK * SECTOR && BOUNCE + SECTORS * SECTOR <= mem.Length
    requires ch < CYLINDERS && dh < HEADS && 1 <= cl && 1 <= al && cl + al <= SECTORS + 1
    requires edi + al * SECTOR <= mem.Length && Clear(edi, al)
    modifies mem
    ensures OnlyChanged(old(mem[..]), mem[..], edi, edi + al * SECTOR)
    ensures 0 <= Lba(ch, dh, cl) && Lba(ch, dh, cl) + al <= DISK
    ensures mem[edi..edi + al * SECTOR] == disk[Lba(ch, dh, cl) * SECTOR..(Lba(ch, dh, cl) + al) * SECTOR]
  {
    hide Lba;
    ReadSectors(disk, mem, al, ch, cl, dh);
    MoveString(mem, BOUNCE, edi, al * 128);
  }

  /** Consecutive sectors join up in memory. */
  lemma Joined(disk: seq<Octet>, w: seq<Octet>, w': seq<Octet>, w'': seq<Octet>, edi: nat, lba: nat, done: nat, n: nat)
    requires (lba + done + n) * SECTOR <= |disk| && edi + (done + n) * SECTOR <= |w| && Clear(edi, done + n)
    requires OnlyChanged(w, w', edi, edi + done * SECTOR)
    requires OnlyChanged(w', w'', edi + done * SECTOR, edi + (done + n) * SECTOR)
    requires w'[edi..edi + done * SECTOR] == disk[lba * SECTOR..(lba + done) * SECTOR]
    requires w''[edi + done * SECTOR..edi + (done + n) * SECTOR] == disk[(lba + done) * SECTOR..(lba + done + n) * SECTOR]
    ensures OnlyChanged(w, w'', edi, edi + (done + n) * SECTOR)
    ensures w''[edi..edi + (done + n) * SECTOR] == disk[lba * SECTOR..(lba + done + n) * SECTOR]
  {
    var m, e := edi + done * SECTOR, edi + (done + n) * SECTOR;
    assert w''[edi..m] == w'[edi..m];
    assert w''[edi..e] == w''[edi..m] + w''[m..e];
    var p, q, r := lba * SECTOR, (lba + done) * SECTOR, (lba + done + n) * SECTOR;
    assert disk[p..r] == disk[p..q] + disk[q..r];
  }

  /** How many sectors are read at once, in 16 bits: to the end of the track, or what is left. */
  method ReadCount(bl: nat, cx: nat) returns (al: nat)
    requires 1 <= bl <= SECTORS && 1 <= cx < 0x8000
    ensures 1 <= al <= cx && bl + al <= SECTORS + 1 && (al == cx || bl + al == SECTORS + 1)
  {
    al := 0x13 - bl;
    if al >= cx {
      al := cx;
    }
  }

  /**
   load_floppy: from cylinder `bh`, head `dh`, sector `bl` on, `cx` consecutive sectors of the disk go to `edi`; no read
   leaves its track.
   */
  method LoadFloppy(disk: seq<Octet>, mem: array<Octet>, edi0: nat, bh0: nat, bl0: nat, dh0: nat, cx0: nat)
    requires |disk| == DISK * SECTOR && BOUNCE + SECTORS * SECTOR <= mem.Length
    requires dh0 < HEADS && 1 <= bl0 <= SECTORS && 1 <= cx0 < 0x8000 && Lba(bh0, dh0, bl0) + cx0 <= DISK
    requires edi0 + cx0 * SECTOR <= mem.Length && Clear(edi0, cx0)
    modifies mem
    ensures OnlyChanged(old(mem[..]), mem[..], edi0, edi0 + cx0 * SECTOR)
    ensures var lba := Lba(bh0, dh0, bl0);
      mem[edi0..edi0 + cx0 * SECTOR] == disk[lba * SECTOR..(lba + cx0) * SECTOR]
  {
    hide Lba, OnlyChanged, Clear;
    var edi: nat, bh: nat, bl: nat, dh: nat, cx: nat := edi0, bh0, bl0, dh0, cx0;
    ghost var lba: nat, done: nat, w0 := Lba(bh0, dh0, bl0), 0, mem[..];
    NothingChanged(w0, edi0);
    while true
      invariant dh < HEADS && 1 <= bl <= SECTORS && 1 <= cx && done + cx == cx0 && edi == edi0 + done * SECTOR
      invariant Lba(bh, dh, bl) == lba + done
      invariant OnlyChanged(w0, mem[..], edi0, edi0 + done * SECTOR)
      invariant mem[edi0..edi0 + done * SECTOR] == disk[lba * SECTOR..(lba + done) * SECTOR]
      decreases cx
    {
      ghost var w := mem[..];
      OnDisk(bh, dh, bl, cx);
      var al := ReadCount(bl, cx);
      ClearPart(edi0, cx0, done, al);
      ReadAndMove(disk, mem, al, bh, bl, dh, edi);
      Joined(disk, w0, w, mem[..], edi0, lba, done, al);
      NextTrack(bh, dh, bl);
      edi, done := edi + al * SECTOR, done + al;
      dh := 1 - dh;
      if dh == 0 {
        bh := bh + 1;
      }
      bl, cx := 1, cx - al;
      if cx <= 0 {
        break;
      }
    }
  }

  lemma NothingChanged(w: seq<Octet>, a: nat)
    ensures OnlyChanged(w, w, a, a)
  {
  }

  lemma OnDisk(c: nat, h: nat, s: nat, n: nat)
    requires h < HEADS && 1 <= s <= SECTORS && 1 <= n && Lba(c, h, s) + n <= DISK
    ensures c < CYLINDERS
  {
  }

  lemma ClearPart(edi: nat, n: nat, done: nat, al: nat)
    requires Clear(edi, n) && done + al <= n
    ensures Clear(edi + done * SECTOR, al) && Clear(edi, done + al)
  {
  }

  // ------------------------------------------------------------------ loading undoes writing

  /** A disk that an image was written to. What the image leaves of the disk is as it was. */
  ghost predicate Holds(disk: seq<Octet>, image: seq<Octet>) {
    |disk| == DISK * SECTOR && forall i :: 0 <= i < |image| && i < |disk| ==> disk[i] == image[i]
  }

  lemma BlocksEnough(size: nat)
    ensures size <= Blocks(size) * SECTOR < size + SECTOR
  {
  }

  /** The word at `a`. */
  function WordAt(w: seq<Octet>, a: nat): nat
    requires a + 1 < |w|
  {
    var lo: nat, hi: nat := w[a], w[a + 1];
    lo + 256 * hi
  }

  /** The patched word reads back. */
  lemma PatchReads(boot: seq<Octet>, blocks: nat)
    requires |boot| == BOOTSECTOR && blocks < 0x10000
    ensures WordAt(Patched(boot, blocks), 2) == blocks
    ensures forall i :: 0 <= i < BOOTSECTOR && i != 2 && i != 3 ==> Patched(boot, blocks)[i] == boot[i]
  {
  }

  /** Padding to sectors fills the last one. */
  lemma FillsSectors(size: nat, padding: nat)
    requires padding > 0 && padding % SECTOR == 0
    ensures Blocks(size) * SECTOR <= size + Fill(BOOTSECTOR + size, padding)
  {
    FillLeast(BOOTSECTOR + size, padding);
    var total := BOOTSECTOR + size + Fill(BOOTSECTOR + size, padding);
    var p, q := padding / SECTOR, total / padding;
    assert total == SECTOR * p * q;
    Associate(SECTOR, p, q);
    WholeSectors(total, p * q, size);
  }

  lemma WholeSectors(total: nat, n: nat, size: nat)
    requires total == SECTOR * n && total >= BOOTSECTOR + size
    ensures total >= BOOTSECTOR + Blocks(size) * SECTOR
  {
  }

  /** The image reaches to the end of the sectors that are loaded. */
  predicate Reaches(payload: seq<Octet>, padding: nat) {
    Blocks(|payload|) * SECTOR <= |payload| + Fill(BOOTSECTOR + |payload|, padding)
  }

  /** The sectors that are loaded hold the payload, and zeros after it. */
  ghost predicate ZeroFilled(disk: seq<Octet>, payload: seq<Octet>) {
    && |payload| <= Blocks(|payload|) * SECTOR && (2 + Blocks(|payload|)) * SECTOR <= |disk|
    && disk[BOOTSECTOR..(2 + Blocks(|payload|)) * SECTOR] == payload + Zeros(Blocks(|payload|) * SECTOR - |payload|)
  }

  /** The boot block finds the number of sectors to load, and they begin with the payload. */
  lemma LoadedPart(disk: seq<Octet>, boot: seq<Octet>, payload: seq<Octet>, padding: nat)
    requires |boot| == BOOTSECTOR && Holds(disk, Image(boot, payload, padding)) && 2 + Blocks(|payload|) <= DISK
    ensures BOOTSECTOR + |payload| <= (2 + Blocks(|payload|)) * SECTOR <= |disk|
    ensures WordAt(disk, 2) == Blocks(|payload|) && disk[BOOTSECTOR..BOOTSECTOR + |payload|] == payload
    ensures Reaches(payload, padding) ==> ZeroFilled(disk, payload)
    ensures padding > 0 && padding % SECTOR == 0 ==> ZeroFilled(disk, payload)
  {
    hide Blocks, Patched, Fill;
    BlocksEnough(|payload|);
    PatchReads(boot, Blocks(|payload|));
    if padding > 0 && padding % SECTOR == 0 {
      FillsSectors(|payload|, padding);
    }
  }

  /** Whatever the disk held before, the rest of the last sector is zero exactly if the image covers it. */
  lemma ZeroFillExactly(boot: seq<Octet>, payload: seq<Octet>, padding: nat)
    requires |boot| == BOOTSECTOR && 2 + Blocks(|payload|) <= DISK
    ensures (forall disk :: Holds(disk, Image(boot, payload, padding)) ==> ZeroFilled(disk, payload)) <==> Reaches(payload, padding)
  {
    hide Blocks, Patched, Fill, Zeros, ZeroFilled;
    var image := Image(boot, payload, padding);
    forall disk | Holds(disk, image) && Reaches(payload, padding) ensures ZeroFilled(disk, payload) {
      LoadedPart(disk, boot, payload, padding);
    }
    if !Reaches(payload, padding) {
      UsedDisk(boot, payload, padding);
    }
  }

  /** One byte without padding: the image ends in the middle of its only sector. */
  lemma UnpaddedByte(boot: seq<Octet>)
    requires |boot| == BOOTSECTOR
    ensures !Reaches([7], 0)
    ensures exists disk :: Holds(disk, Image(boot, [7], 0)) && !ZeroFilled(disk, [7])
  {
    UsedDisk(boot, [7], 0);
  }

  /** A disk full of ones shows through behind an image that ends early. */
  lemma UsedDisk(boot: seq<Octet>, payload: seq<Octet>, padding: nat)
    requires |boot| == BOOTSECTOR && 2 + Blocks(|payload|) <= DISK && !Reaches(payload, padding)
    ensures exists disk :: Holds(disk, Image(boot, payload, padding)) && !ZeroFilled(disk, payload)
  {
    hide Blocks, Patched, Fill;
    var image, n := Image(boot, payload, padding), Blocks(|payload|) * SECTOR;
    var disk: seq<Octet> := image + seq(DISK * SECTOR - |image|, i => 1);
    assert Holds(disk, image);
    assert disk[|image|] == 1;
  }

  /** Where the BIOS loads the boot sector. */
  const BOOT := 0x7c00
  const ONE_MB := 0x100000

  /** The boot block's two loads, once the BIOS loaded the first sector. */
  method Boot(disk: seq<Octet>, mem: array<Octet>)
    requires |disk| == DISK * SECTOR && ONE_MB + DISK * SECTOR <= mem.Length && mem[BOOT..BOOT + SECTOR] == disk[..SECTOR]
    requires 1 <= WordAt(disk, 2) <= DISK - 2
    modifies mem
    ensures var low: nat, high: nat := disk[2], disk[3];
      var n := low + 256 * high;
      && mem[BOOT..BOOT + 2 * SECTOR] == disk[..2 * SECTOR]
      && mem[ONE_MB..ONE_MB + n * SECTOR] == disk[2 * SECTOR..(2 + n) * SECTOR]
  {
    ghost var w := mem[..];
    LoadFloppy(disk, mem, BOOT + SECTOR, 0, 2, 0, 1);
    assert mem[BOOT..BOOT + SECTOR] == w[BOOT..BOOT + SECTOR];
    assert mem[BOOT..BOOT + 2 * SECTOR] == mem[BOOT..BOOT + SECTOR] + mem[BOOT + SECTOR..BOOT + 2 * SECTOR];
    assert disk[..2 * SECTOR] == disk[..SECTOR] + disk[SECTOR..2 * SECTOR];
    var sectors := WordAt(mem[..], BOOT + 2);
    assert mem[BOOT + 2] == mem[BOOT..BOOT + 2 * SECTOR][2] == disk[2];
    assert mem[BOOT + 3] == mem[BOOT..BOOT + 2 * SECTOR][3] == disk[3];
    w := mem[..];
    LoadFloppy(disk, mem, ONE_MB, 0, 3, 0, sectors);
    assert mem[BOOT..BOOT + 2 * SECTOR] == w[BOOT..BOOT + 2 * SECTOR];
  }

  /**
   Loading undoes writing. Once an image was written to a disk, whatever that held before, the boot block brings the payload
   to 1 MB, followed up to the end of its last sector by zeros if the image was padded to sectors.
   */
  method BootImage(disk: seq<Octet>, mem: array<Octet>, ghost boot: seq<Octet>, ghost payload: seq<Octet>, ghost padding: nat)
    requires |boot| == BOOTSECTOR && Holds(disk, Image(boot, payload, padding))
    requires payload != [] && 2 + Blocks(|payload|) <= DISK
    requires ONE_MB + DISK * SECTOR <= mem.Length && mem[BOOT..BOOT + SECTOR] == disk[..SECTOR]
    modifies mem
    ensures mem[ONE_MB..ONE_MB + |payload|] == payload
    ensures Reaches(payload, padding) || (padding > 0 && padding % SECTOR == 0) ==>
      mem[ONE_MB..ONE_MB + Blocks(|payload|) * SECTOR] == payload + Zeros(Blocks(|payload|) * SECTOR - |payload|)
  {
    hide Patched, Fill, Image, Reaches, Blocks, Zeros;
    LoadedPart(disk, boot, payload, padding);
    BlocksEnough(|payload|);
    Boot(disk, mem);
    Landed(mem[..], disk, payload, Blocks(|payload|) * SECTOR);
  }

  /** What arrives of the first `n` bytes behind the boot block begins as they do. */
  lemma Landed(w: seq<Octet>, disk: seq<Octet>, payload: seq<Octet>, n: nat)
    requires |payload| <= n && ONE_MB + n <= |w| && BOOTSECTOR + n <= |disk|
    requires w[ONE_MB..ONE_MB + n] == disk[BOOTSECTOR..BOOTSECTOR + n] && disk[BOOTSECTOR..BOOTSECTOR + |payload|] == payload
    ensures w[ONE_MB..ONE_MB + |payload|] == payload
  {
    Beginning(w, ONE_MB, |payload|, n);
    Beginning(disk, BOOTSECTOR, |payload|, n);
  }

  lemma Beginning(s: seq<Octet>, at: nat, m: nat, n: nat)
    requires m <= n && at + n <= |s|
    ensures s[at..at + m] == s[at..at + n][..m]
  {
  }
}
