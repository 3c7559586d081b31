/** Reading the target's memory into a file, through the layers of chunks. */
module ReadBack {
  import opened Words
  import opened Tap
  import opened Host
  import opened Session
  import opened Flash
  import Image
  import Program
  import Executive

  const BLOCK: nat := 1024

  /** Words as they lie in memory. */
  function FileBytes(words: seq<Word>): (bytes: seq<bv8>)
    ensures |bytes| == 4 * |words|
  {
    seq(4 * |words|, i requires 0 <= i < 4 * |words| => ByteIn(words, i))
  }

  lemma FileBytesOf(bytes: seq<bv8>)
    requires |bytes| % 4 == 0
    ensures FileBytes(WordsOf(bytes)) == bytes
  {
    hide ByteIn;
    var f := FileBytes(WordsOf(bytes));
    forall i | 0 <= i < |bytes|
      ensures f[i] == bytes[i]
    {
      ByteInWordsOf(bytes, i);
    }
  }

  /** The bytes of block `i` of a region that starts at a virtual or physical address. */
  function BlockOf(m: Memory, base: Word, i: nat): seq<bv8>
  {
    Range(m, VirtToPhys(Wrap(base + BLOCK * i)), BLOCK)
  }

  /** The first `k` blocks. */
  function Blocks(m: Memory, base: Word, k: nat): (r: seq<bv8>)
    ensures |r| == BLOCK * k
  {
    if k == 0 then [] else Blocks(m, base, k - 1) + BlockOf(m, base, k - 1)
  }

  /** How many blocks cover a number of bytes. */
  function Count(nbytes: nat): nat
  {
    (nbytes + BLOCK - 1) / BLOCK
  }

  /** Read from memory, at most 256 words at a time. */
  method ReadBlock(chip: TargetChip, addr: Word, nwords: nat, data: array<Word>) returns (ok: bool)
    requires chip.Ready() && chip.Exec() && Grouped(nwords) <= data.Length && data !in chip.Repr()
    modifies chip.Repr() - {chip.session.usb}, data
    ensures chip.Ready() && chip.Exec() && chip.Memory() == old(chip.Memory())
    ensures chip.Sound() ==> ok
    ensures ok ==> data[..nwords] == MemoryWords(chip.Memory(), VirtToPhys(addr), nwords)
  {
    hide Tap.Valid, UsbPic.AtRest, MemoryWords, Wrap, Put, Session.Ready, Known, Grouped, VirtToPhys;
    ghost var m, p := chip.Memory(), VirtToPhys(addr);
    var a: int := VirtToPhys(addr);
    var done, left: nat := 0, nwords;
    ghost var q: nat := 0;
    NoWords(m, p);
    WrapWord(p);
    ok := true;
    while left > 0
      invariant done + left == nwords && a == Wrap(p + 4 * done) && (done == 256 * q || left == 0)
      invariant done + left == nwords && ok && chip.Ready() && chip.Exec() && chip.Memory() == m
      invariant data[..done] == MemoryWords(m, p, done)
      decreases left
    {
      var n := left;
      if n > 256 {
        n := 256;
      }
      Rooms(q, left, n);
      ghost var was := data[..];
      ok := chip.session.ReadData(a, n, data, done);
      if !ok {
        return;
      }
      MoreWords(m, p, done, n);
      PutStarts(was, done, MemoryWords(m, a, Grouped(n)), n);
      FirstWords(m, a, Grouped(n), n);
      WrapAdd(p, 4 * done, 4 * n);
      a := Wrap(a + 4 * n);
      done := done + n;
      left := left - n;
      q := q + 1;
    }
  }

  /** Every chunk but the last is whole groups, so that there is room for the last group. */
  lemma Rooms(q: nat, left: nat, n: nat)
    requires 0 < n <= left
    ensures 256 * q + Grouped(n) <= Grouped(256 * q + left)
  {
    GroupsAdd(8 * q, left);
    GroupsGrow(n, left);
  }

  lemma GroupsAdd(q: nat, n: nat)
    ensures Grouped(32 * q + n) == 32 * q + Grouped(n)
  {
    QuotientAdds(q, n + 31);
  }

  lemma QuotientAdds(q: nat, n: nat)
    ensures (32 * q + n) / 32 == q + n / 32
  {
  }

  lemma GroupsGrow(m: nat, n: nat)
    requires m <= n
    ensures Grouped(m) <= Grouped(n)
  {
  }

  lemma FirstWords(m: Memory, a: Word, n: nat, k: nat)
    requires k <= n
    ensures MemoryWords(m, a, n)[..k] == MemoryWords(m, a, k)
  {
    MoreWords(m, a, k, n - k);
  }

  lemma PutStarts<T>(was: seq<T>, from: nat, words: seq<T>, n: nat)
    requires from + |words| <= |was| && n <= |words|
    ensures Put(was, from, words)[..from + n] == was[..from] + words[..n]
  {
  }

  /** Read a region into a file. */
  method DoRead(chip: TargetChip, pe: seq<Word>, answer: Word, base: Word, nbytes: Word)
    returns (ok: bool, file: seq<bv8>)
    requires chip.Ready() && chip.family.peNwords != 0 && chip.family.peNwords <= |pe|
    requires nbytes <= 0xFFFF_FC00
    modifies chip.Repr()
    ensures chip.Ready() && chip.Memory() == old(chip.Memory())
    ensures Honest(ok, answer == Executive.PE_EXEC_VERSION + chip.family.peVersion, chip.Sound())
    ensures ok ==> file == Blocks(chip.Memory(), base, Count(nbytes))
  {
    hide Tap.Valid, UsbPic.AtRest, Blocks, MemoryWords, FileBytes, VirtToPhys, Session.Ready, Known, Wrap;
    var data := new Word[256];
    file := [];
    ok := chip.UseExecutive(pe, answer);
    if !ok {
      return;
    }
    ghost var m, k: nat := chip.Memory(), 0;
    NoBlocks(m, base);
    var addr: Word := base;
    Passes(base, nbytes, 0);
    while Wrap(addr - base) < nbytes
      invariant addr == Wrap(base + BLOCK * k) && k <= Count(nbytes) && ok
      invariant Wrap(addr - base) < nbytes <==> k < Count(nbytes)
      invariant chip.Ready() && chip.Exec() && chip.Memory() == m
      invariant file == Blocks(m, base, k)
      decreases Count(nbytes) - k
    {
      ok := ReadBlock(chip, addr, 256, data);
      if !ok {
        return;
      }
      assert data[..256] == data[..];
      NextBlock(m, base, k);
      file := file + FileBytes(data[..]);
      Passes(base, nbytes, k + 1);
      WrapAdd(base, BLOCK * k, BLOCK);
      addr := Wrap((addr as int) + BLOCK);
      k := k + 1;
    }
  }

  lemma NoBlocks(m: Memory, base: Word)
    ensures Blocks(m, base, 0) == [] && Wrap(base + BLOCK * 0) == base
  {
  }

  lemma NextBlock(m: Memory, base: Word, k: nat)
    ensures Blocks(m, base, k + 1)
         == Blocks(m, base, k) + FileBytes(MemoryWords(m, VirtToPhys(Wrap(base + BLOCK * k)), 256))
  {
    hide VirtToPhys, FileBytes, Wrap;
    FileBytesOf(BlockOf(m, base, k));
  }

  /** The loop's test after `k` rounds, with 32-bit wrap-around. */
  lemma Passes(base: Word, nbytes: Word, k: nat)
    requires nbytes <= 0xFFFF_FC00 && k <= Count(nbytes)
    ensures Wrap(Wrap(base + BLOCK * k) - base) < nbytes <==> k < Count(nbytes)
  {
    Difference(base, BLOCK * k);
  }

  lemma Difference(base: Word, n: nat)
    ensures Wrap(Wrap(base + n) - base) == Wrap(n)
  {
  }

  /** A whole number of blocks, wrapped, is one too. */
  lemma WholeBlocks(k: nat)
    ensures Wrap(BLOCK * k) <= 0xFFFF_FC00
  {
    var q, r := k / 0x40_0000, k % 0x40_0000;
    assert BLOCK * k == 0x1_0000_0000 * q + BLOCK * r;
    WrapRest(q, BLOCK * r);
  }

  lemma WrapRest(q: nat, r: Word)
    ensures Wrap(0x1_0000_0000 * q + r) == r
  {
  }

  /** The loop stops at all exactly when the size is no more than this. */
  lemma StopsIff(base: Word, nbytes: Word)
    ensures (exists k: nat :: !(Wrap(Wrap(base + BLOCK * k) - base) < nbytes)) <==> nbytes <= 0xFFFF_FC00
  {
    hide Wrap;
    if nbytes <= 0xFFFF_FC00 {
      Passes(base, nbytes, Count(nbytes));
    } else {
      forall k: nat
        ensures Wrap(Wrap(base + BLOCK * k) - base) < nbytes
      {
        Difference(base, BLOCK * k);
        WholeBlocks(k);
      }
    }
  }

  /** What the translation takes off an address. */
  function Segment(a: Word): int
  {
    a - VirtToPhys(a)
  }

  predicate Translates(a: Word, j: nat)
  {
    VirtToPhys(Wrap(a + j)) == Wrap(VirtToPhys(a) + j)
  }

  /** Translating a block's first address translates all of them exactly when the block does
      not cross into another segment. */
  lemma BlockTranslates(a: Word)
    ensures (forall j: nat :: j < BLOCK ==> Translates(a, j)) <==> Segment(a) == Segment(Wrap(a + BLOCK - 1))
  {
    if Segment(a) == Segment(Wrap(a + BLOCK - 1)) {
      forall j: nat | j < BLOCK
        ensures Translates(a, j)
      {
        Within1K(a, j);
      }
    } else {
      WrapTop(a, BLOCK - 1);
      assert !Translates(a, BLOCK - 1);
    }
  }

  lemma Within1K(a: Word, j: nat)
    requires Segment(a) == Segment(Wrap(a + BLOCK - 1)) && j < BLOCK
    ensures Translates(a, j)
  {
    WrapTop(a, BLOCK - 1);
    WrapTop(a, j);
    WrapTop(VirtToPhys(a), j);
  }

  lemma WrapTop(a: Word, n: nat)
    requires n <= BLOCK
    ensures Wrap(a + n) == if a + n < 0x1_0000_0000 then a + n else a + n - 0x1_0000_0000
  {
  }

  /** A byte of the file in its block. */
  lemma {:induction false} ByteInBlock(m: Memory, base: Word, k: nat, i: nat, j: nat)
    requires i < k && j < BLOCK
    ensures BLOCK * i + j < BLOCK * k
    ensures Blocks(m, base, k)[BLOCK * i + j] == m(Wrap(VirtToPhys(Wrap(base + BLOCK * i)) + j))
  {
    hide VirtToPhys, Wrap;
    if i < k - 1 {
      ByteInBlock(m, base, k - 1, i, j);
    } else {
      assert Blocks(m, base, k)[BLOCK * i + j] == BlockOf(m, base, i)[j];
    }
  }

  /** A block's byte is the byte of memory at its address exactly if the block's translation
      serves it. */
  lemma ByteTranslates(m: Memory, base: Word, k: nat, i: nat, j: nat)
    requires i < k && j < BLOCK
    ensures var a, at := Wrap(base + BLOCK * i), BLOCK * i + j;
            && at < BLOCK * k && Blocks(m, base, k)[at] == m(Wrap(VirtToPhys(a) + j))
            && (Translates(a, j) <==> VirtToPhys(Wrap(base + at)) == Wrap(VirtToPhys(a) + j))
  {
    hide VirtToPhys, Wrap;
    ByteInBlock(m, base, k, i, j);
    WrapAdd(base, BLOCK * i, j);
  }

  /** The byte at offset `j` of the file is the byte of memory at that offset from the base,
      as long as no block crosses into another segment. */
  lemma FileByte(m: Memory, base: Word, k: nat, j: nat)
    requires j < BLOCK * k
    requires forall i: nat :: i < k ==> OneSegment(base, i)
    ensures Blocks(m, base, k)[j] == m(VirtToPhys(Wrap(base + j)))
  {
    hide VirtToPhys, Wrap, Segment;
    var i, r := j / BLOCK, j % BLOCK;
    assert OneSegment(base, i);
    Within1K(Wrap(base + BLOCK * i), r);
    ByteTranslates(m, base, k, i, r);
  }

  /** Every byte of the file is the byte of memory at its offset from the base. */
  ghost predicate Faithful(m: Memory, base: Word, k: nat)
  {
    forall j: nat :: j < BLOCK * k ==> Blocks(m, base, k)[j] == m(VirtToPhys(Wrap(base + j)))
  }

  /** That is so for all memories exactly when no block crosses into another segment. */
  lemma FaithfulIff(base: Word, k: nat)
    ensures (forall m: Memory :: Faithful(m, base, k)) <==> forall i: nat :: i < k ==> OneSegment(base, i)
  {
    hide VirtToPhys, Wrap, Segment, Translates;
    if forall i: nat :: i < k ==> OneSegment(base, i) {
      forall m: Memory
        ensures Faithful(m, base, k)
      {
        forall j: nat | j < BLOCK * k
          ensures Blocks(m, base, k)[j] == m(VirtToPhys(Wrap(base + j)))
        {
          FileByte(m, base, k, j);
        }
      }
    } else {
      var i: nat :| i < k && !OneSegment(base, i);
      var a := Wrap(base + BLOCK * i);
      BlockTranslates(a);
      var j: nat :| j < BLOCK && !Translates(a, j);
      var read := Wrap(VirtToPhys(a) + j);
      var m: Memory := x => if x == read then 1 else 0;
      ByteTranslates(m, base, k, i, j);
      assert !Faithful(m, base, k);
    }
  }

  predicate OneSegment(base: Word, i: nat)
  {
    var a := Wrap(base + BLOCK * i);
    Segment(a) == Segment(Wrap(a + BLOCK - 1))
  }

  /** From an aligned base none does. */
  lemma AlignedBase(base: Word, i: nat)
    requires base % BLOCK == 0
    ensures OneSegment(base, i)
  {
    hide Wrap;
    var a := Wrap(base + BLOCK * i);
    AlignedWrap(base, i);
    var q := a / BLOCK;
    assert a == BLOCK * q;
    WrapTop(a, BLOCK - 1);
    AlignedSegment(q);
  }

  lemma AlignedSegment(q: nat)
    requires q < 0x40_0000
    ensures Segment(BLOCK * q) == Segment(BLOCK * q + BLOCK - 1)
  {
  }

  lemma AlignedWrap(base: Word, i: nat)
    requires base % BLOCK == 0
    ensures Wrap(base + BLOCK * i) % BLOCK == 0
  {
    var b := base / BLOCK;
    assert base + BLOCK * i == BLOCK * (b + i);
    var q := (base + BLOCK * i) / 0x1_0000_0000;
    assert Wrap(base + BLOCK * i) == BLOCK * (b + i - 0x40_0000 * q);
  }

  /** Reading a range of memory through either window gives what it holds. */
  lemma ReadsRange(m: Memory, physical: Word, data: seq<bv8>, n: nat, k: nat)
    requires physical % BLOCK == 0 && physical + n <= 0x2000_0000 && BLOCK * k <= n <= |data|
    requires Program.Matches(m, physical, data, n)
    ensures Blocks(m, physical + 0x8000_0000, k) == Blocks(m, physical, k) == data[..BLOCK * k]
  {
    hide Blocks, VirtToPhys;
    var virtual: Word := physical + 0x8000_0000;
    Aligned(physical);
    var v, p := Blocks(m, virtual, k), Blocks(m, physical, k);
    forall j: nat | j < BLOCK * k
      ensures v[j] == data[j] && p[j] == data[j]
    {
      forall i: nat | i < k
        ensures OneSegment(virtual, i) && OneSegment(physical, i)
      {
        AlignedBase(virtual, i);
        AlignedBase(physical, i);
      }
      FileByte(m, virtual, k, j);
      FileByte(m, physical, k, j);
      WindowAddress(physical + j);
      assert Within(physical + j, physical, n);
    }
  }

  lemma Aligned(physical: Word)
    requires physical % BLOCK == 0 && physical < 0x8000_0000
    ensures (physical + 0x8000_0000) % BLOCK == 0
  {
    assert physical + 0x8000_0000 == BLOCK * (physical / BLOCK + 0x20_0000);
  }

  lemma WindowAddress(x: nat)
    requires x < 0x2000_0000
    ensures VirtToPhys(Wrap(x + 0x8000_0000)) == VirtToPhys(Wrap(x)) == x
  {
  }

  /** After a completed run of programming, reading flash and boot memory back gives the
      image, through either window. */
  lemma ReadsWhatWasWritten(f: Family, was: Memory, m: Memory, flash: seq<bv8>, flashBytes: nat, boot: seq<bv8>, k: nat)
    requires Known(f) && BootBytes(f) <= |boot| && flashBytes <= Image.FLASH_BYTES == |flash|
    requires Program.Holding(f, was, m, flash, flashBytes, boot)
    ensures BLOCK * k <= flashBytes ==>
              Blocks(m, Image.FLASHV_BASE, k) == Blocks(m, Image.FLASHP_BASE, k) == flash[..BLOCK * k]
    ensures BLOCK * k <= BootBytes(f) ==>
              Blocks(m, Image.BOOTV_BASE, k) == Blocks(m, Image.BOOTP_BASE, k) == boot[..BLOCK * k]
  {
    hide Blocks, Program.Matches;
    if BLOCK * k <= flashBytes {
      ReadsRange(m, Image.FLASHP_BASE, flash, flashBytes, k);
    }
    if BLOCK * k <= BootBytes(f) {
      ReadsRange(m, Image.BOOTP_BASE, boot, BootBytes(f), k);
    }
  }
}
