/** Writing an image into a chip: dirty blocks, configuration words, verification. */
module Program {
  import opened Words
  import opened Image
  import opened Session
  import opened Flash
  import Crc
  import Executive

  const MINBLOCKSZ: nat := 128

  predicate InDevcfg(i: int, devcfg: nat)
  {
    devcfg <= i < devcfg + 16
  }

  /** A block of flash with something to write. */
  predicate FlashDirty(flash: seq<bv8>, off: nat, size: nat)
    requires off + size <= |flash|
  {
    exists i :: off <= i < off + size && flash[i] != 0xFF
  }

  /** A block of boot memory with something to write besides the configuration words. */
  predicate BootDirty(boot: seq<bv8>, off: nat, size: nat, devcfg: nat)
    requires off + size <= |boot|
  {
    exists i :: off <= i < off + size && !InDevcfg(i, devcfg) && boot[i] != 0xFF
  }

  /** The memory from a base address on holds these bytes, up to `hi`. */
  ghost predicate Matches(m: Memory, base: Word, data: seq<bv8>, hi: nat)
    requires hi <= |data|
  {
    forall x: int :: Within(x, base, hi) ==> m(x) == data[x - base]
  }

  ghost predicate Blank(m: Memory, base: Word, lo: nat, hi: nat)
  {
    forall x: int :: base + lo <= x < base + hi ==> m(x) == 0xFF
  }

  ghost predicate SameOutside(m0: Memory, m1: Memory, base: Word, n: nat)
  {
    forall x: int :: !Within(x, base, n) ==> m1(x) == m0(x)
  }

  /** Programming the next block of a range. */
  lemma BlockProgrammed(m0: Memory, m1: Memory, base: Word, data: seq<bv8>, lo: nat, hi: nat, end: nat)
    requires lo <= hi <= end <= |data| && base + end <= 0x1_0000_0000
    requires Matches(m0, base, data, lo) && Blank(m0, base, lo, end)
    requires base + lo < 0x1_0000_0000 && Burned(m0, m1, base + lo, data[lo..hi])
    ensures Matches(m1, base, data, hi) && Blank(m1, base, hi, end) && SameOutside(m0, m1, base, end)
  {
    hide And;
    forall x: int | Within(x, base, hi)
      ensures m1(x) == data[x - base]
    {
      if x >= base + lo {
        assert m1(x) == And(m0(x), data[lo..hi][x - (base + lo)]);
        assert data[lo..hi][x - (base + lo)] == data[x - base];
        AndOnes(data[x - base]);
      }
    }
  }

  /** Leaving out a block that is all ones. */
  lemma BlockSkipped(m: Memory, base: Word, data: seq<bv8>, lo: nat, hi: nat, end: nat)
    requires lo <= hi <= end <= |data|
    requires Matches(m, base, data, lo) && Blank(m, base, lo, end) && AllOnes(data[lo..hi])
    ensures Matches(m, base, data, hi) && Blank(m, base, hi, end)
  {
    forall x: int | Within(x, base, hi)
      ensures m(x) == data[x - base]
    {
      if x >= base + lo {
        assert data[lo..hi][x - (base + lo)] == data[x - base];
      }
    }
  }

  lemma CleanFlash(flash: seq<bv8>, lo: nat, size: nat)
    requires lo + size <= |flash|
    ensures FlashDirty(flash, lo, size) <==> !AllOnes(flash[lo..lo + size])
  {
    var block := flash[lo..lo + size];
    if FlashDirty(flash, lo, size) {
      var i :| lo <= i < lo + size && flash[i] != 0xFF;
      assert block[i - lo] != 0xFF;
    }
    if !AllOnes(block) {
      var i :| 0 <= i < |block| && block[i] != 0xFF;
      assert flash[lo + i] != 0xFF;
    }
  }

  /** Boot memory after the blocks are written and before the configuration words are: the
      words are there already if their block was dirty. */
  function Staged(boot: seq<bv8>, devcfg: nat, withConfig: bool): (e: seq<bv8>)
    requires devcfg + 16 <= |boot|
    ensures |e| == |boot|
    ensures forall i :: 0 <= i < |e| ==> e[i] == if InDevcfg(i, devcfg) && !withConfig then 0xFF else boot[i]
  {
    seq(|boot|, i requires 0 <= i < |boot| => if InDevcfg(i, devcfg) && !withConfig then 0xFF else boot[i])
  }

  /** Start of block `k`. */
  function Start(f: Family, k: nat): nat
  {
    k * f.bytesPerRow
  }

  function Blocks(f: Family, bytes: nat): nat
    requires Known(f)
  {
    bytes / f.bytesPerRow
  }

  /** The block of boot memory that has the configuration words. */
  function ConfigBlock(f: Family): nat
    requires Known(f)
  {
    f.devcfgOffset / f.bytesPerRow
  }

  /** Blocks tile a range. */
  lemma Tiles(f: Family, bytes: nat, k: nat)
    requires Known(f) && bytes % f.bytesPerRow == 0
    ensures f.bytesPerRow > 0 && Start(f, 0) == 0 && Start(f, k + 1) == Start(f, k) + f.bytesPerRow
    ensures Start(f, k) / f.bytesPerRow == k
    ensures k < Blocks(f, bytes) <==> Start(f, k) < bytes
    ensures k < Blocks(f, bytes) ==> Start(f, k + 1) <= bytes
    ensures k == Blocks(f, bytes) ==> Start(f, k) == bytes
    ensures bytes <= FLASH_BYTES ==> Blocks(f, bytes) <= FLASH_BYTES / MINBLOCKSZ
  {
  }

  lemma BootTiles(f: Family)
    requires Known(f)
    ensures BootBytes(f) % f.bytesPerRow == 0 && BootBytes(f) <= BOOT_BYTES
    ensures Blocks(f, BootBytes(f)) <= BOOT_BYTES / MINBLOCKSZ
    ensures ConfigBlock(f) < Blocks(f, BootBytes(f))
    ensures f.devcfgOffset + 16 <= BootBytes(f)
  {
  }

  /** The configuration words lie in one block only. */
  lemma ConfigInBlock(f: Family, k: nat, i: nat)
    requires Known(f) && InDevcfg(i, f.devcfgOffset) && Start(f, k) <= i < Start(f, k + 1)
    ensures k == ConfigBlock(f)
  {
  }

  /** Only one block has configuration words. */
  lemma OnlyConfigBlock(f: Family, k: nat, i: nat)
    requires Known(f) && Start(f, k) <= i < Start(f, k) + f.bytesPerRow && InDevcfg(i, f.devcfgOffset)
    ensures k == ConfigBlock(f)
  {
    Tiles(f, 0, k);
    ConfigInBlock(f, k, i);
  }

  /** A dirty block of boot memory is written as it is staged. */
  lemma StagedDirty(f: Family, boot: seq<bv8>, k: nat)
    requires Staging(f, boot) && Start(f, k) + f.bytesPerRow <= BOOT_BYTES && BootDirtyAt(f, boot, k)
    ensures var lo, hi := Start(f, k), Start(f, k) + f.bytesPerRow;
            StagedBoot(f, boot)[lo..hi] == boot[lo..hi] && !AllOnes(boot[lo..hi])
  {
    var lo, hi := Start(f, k), Start(f, k) + f.bytesPerRow;
    forall i | lo <= i < hi
      ensures StagedBoot(f, boot)[i] == boot[i]
    {
      if InDevcfg(i, f.devcfgOffset) {
        OnlyConfigBlock(f, k, i);
      }
    }
    var i :| lo <= i < hi && !InDevcfg(i, f.devcfgOffset) && boot[i] != 0xFF;
    assert boot[lo..hi][i - lo] != 0xFF;
  }

  /** A clean block has nothing staged. */
  lemma StagedClean(f: Family, boot: seq<bv8>, k: nat)
    requires Staging(f, boot) && Start(f, k) + f.bytesPerRow <= BOOT_BYTES && !BootDirtyAt(f, boot, k)
    ensures AllOnes(StagedBoot(f, boot)[Start(f, k)..Start(f, k) + f.bytesPerRow])
  {
    forall i: nat | Start(f, k) <= i < Start(f, k) + f.bytesPerRow
      ensures StagedBoot(f, boot)[i] == 0xFF
    {
      if InDevcfg(i, f.devcfgOffset) {
        OnlyConfigBlock(f, k, i);
      }
    }
  }

  /** Unless their block is dirty, no dirty block has the configuration words. */
  lemma ConfigElsewhere(f: Family, boot: seq<bv8>, k: nat)
    requires Staging(f, boot) && BootDirtyAt(f, boot, k) && !Configured(f, boot)
    requires BOOTP_BASE + Start(f, k) < 0x1_0000_0000
    ensures ConfigAddresses(f) !! Addresses(BOOTP_BASE + Start(f, k), f.bytesPerRow)
  {
    forall x | x in ConfigAddresses(f)
      ensures x !in Addresses(BOOTP_BASE + Start(f, k), f.bytesPerRow)
    {
      if x in Addresses(BOOTP_BASE + Start(f, k), f.bytesPerRow) {
        OnlyConfigBlock(f, k, x - BOOTP_BASE);
        assert false;
      }
    }
  }

  /** The image as it is written: on MZ parts a signature bit is cleared. */
  function Signed(f: Family, boot: seq<bv8>): (r: seq<bv8>)
    requires |boot| == BOOT_BYTES
    ensures |r| == |boot|
  {
    if f.devcfgOffset == 0xffc0 then boot[0xFFEF := boot[0xFFEF] & 0x7f] else boot
  }

  /** The configuration word that must not be missing. */
  function Devcfg0(f: Family, boot: seq<bv8>): Word
    requires Known(f) && |boot| == BOOT_BYTES
  {
    BytesWord(boot[f.devcfgOffset + 12..f.devcfgOffset + 16])
  }

  /** The cleared signature bit makes the block of the configuration words dirty, so they
      are never written on their own on MZ parts. */
  lemma SignedIsDirty(boot: seq<bv8>)
    requires |boot| == BOOT_BYTES
    ensures Start(MZ, ConfigBlock(MZ)) + MZ.bytesPerRow <= BOOT_BYTES
    ensures BootDirty(Signed(MZ, boot), Start(MZ, ConfigBlock(MZ)), MZ.bytesPerRow, MZ.devcfgOffset)
  {
    var s := Signed(MZ, boot);
    TopClear(boot[0xFFEF]);
    assert s[0xFFEF] != 0xFF && !InDevcfg(0xFFEF, MZ.devcfgOffset);
  }

  lemma TopClear(b: bv8)
    ensures b & 0x7f != 0xFF
  {
  }

  class Programmer {
    const image: Image
    const chip: TargetChip
    const bootDirty: array<bool>
    const flashDirty: array<bool>

    ghost predicate Apart()
    {
      && image.boot !in chip.Repr() && image.flash !in chip.Repr() && image !in chip.Repr()
      && bootDirty !in chip.Repr() && flashDirty !in chip.Repr() && bootDirty != flashDirty
      && bootDirty.Length == BOOT_BYTES / MINBLOCKSZ && flashDirty.Length == FLASH_BYTES / MINBLOCKSZ
      && Known(chip.family) && chip.flashBytes <= FLASH_BYTES && chip.flashBytes % chip.family.bytesPerRow == 0
    }

    ghost predicate Valid()
      reads image, image.boot, image.flash, chip.session, chip.session.usb, chip.session.usb.adapter.port
    {
      Apart() && image.Valid() && chip.Ready()
    }

    constructor (image: Image, chip: TargetChip)
      requires image.Valid() && chip.Ready() && chip.flashBytes <= FLASH_BYTES &&
               chip.flashBytes % chip.family.bytesPerRow == 0
      requires image.boot !in chip.Repr() && image.flash !in chip.Repr() && image !in chip.Repr()
      ensures Valid() && this.image == image && this.chip == chip && fresh(bootDirty) && fresh(flashDirty)
    {
      this.image := image;
      this.chip := chip;
      this.bootDirty := new bool[BOOT_BYTES / MINBLOCKSZ](_ => false);
      this.flashDirty := new bool[FLASH_BYTES / MINBLOCKSZ](_ => false);
    }

    method IsFlashBlockDirty(offset: nat) returns (dirty: bool)
      requires image.flash.Length == FLASH_BYTES && offset + chip.family.bytesPerRow <= FLASH_BYTES
      ensures dirty <==> FlashDirty(image.flash[..], offset, chip.family.bytesPerRow)
    {
      var i := 0;
      while i < chip.family.bytesPerRow
        invariant 0 <= i <= chip.family.bytesPerRow
        invariant forall j :: offset <= j < offset + i ==> image.flash[j] == 0xFF
      {
        if image.flash[offset + i] != 0xFF {
          assert image.flash[..][offset + i] != 0xFF;
          return true;
        }
        i := i + 1;
      }
      dirty := false;
    }

    method IsBootBlockDirty(offset: nat) returns (dirty: bool)
      requires image.boot.Length == BOOT_BYTES && offset + chip.family.bytesPerRow <= BOOT_BYTES
      ensures dirty <==> BootDirty(image.boot[..], offset, chip.family.bytesPerRow, chip.family.devcfgOffset)
    {
      var i := 0;
      while i < chip.family.bytesPerRow
        invariant 0 <= i <= chip.family.bytesPerRow
        invariant forall j :: offset <= j < offset + i && !InDevcfg(j, chip.family.devcfgOffset) ==>
                  image.boot[j] == 0xFF
      {
        if offset + i >= chip.family.devcfgOffset && offset + i < chip.family.devcfgOffset + 16 {
          i := i + 1;
          continue;
        }
        if image.boot[offset + i] != 0xFF {
          assert image.boot[..][offset + i] != 0xFF;
          return true;
        }
        i := i + 1;
      }
      dirty := false;
    }

    // ----- Dirty marks ------------------------------------------------------------

    ghost predicate FlashMarked()
      reads flashDirty, image.flash
      requires Apart() && image.flash.Length == FLASH_BYTES
    {
      && Blocks(chip.family, chip.flashBytes) <= flashDirty.Length
      && flashDirty[..Blocks(chip.family, chip.flashBytes)] == FlashMarks(chip.family, image.flash[..], chip.flashBytes)
    }

    ghost predicate BootMarked()
      reads bootDirty, image.boot
      requires Apart() && image.boot.Length == BOOT_BYTES
    {
      && Blocks(chip.family, BootBytes(chip.family)) <= bootDirty.Length
      && bootDirty[..Blocks(chip.family, BootBytes(chip.family))] == BootMarks(chip.family, image.boot[..])
    }

    method MarkFlash()
      requires Valid()
      modifies flashDirty
      ensures Valid() && FlashMarked()
    {
      hide Start, Blocks, Known, FlashDirtyAt, FlashMarks, TargetChip.Ready, Session.Ready;
      var f := chip.family;
      ghost var marks := FlashMarks(f, image.flash[..], chip.flashBytes);
      var addr := 0;
      ghost var k := 0;
      Tiles(f, chip.flashBytes, 0);
      while addr < chip.flashBytes
        invariant addr == Start(f, k) && k <= Blocks(f, chip.flashBytes) <= flashDirty.Length && Valid()
        invariant flashDirty[..k] == marks[..k]
        decreases chip.flashBytes - addr
      {
        Tiles(f, chip.flashBytes, k);
        FlashMarksAt(f, image.flash[..], chip.flashBytes, k);
        var dirty := IsFlashBlockDirty(addr);
        flashDirty[addr / f.bytesPerRow] := dirty;
        addr := addr + f.bytesPerRow;
        k := k + 1;
      }
      Tiles(f, chip.flashBytes, k);
    }

    method MarkBoot()
      requires Valid()
      modifies bootDirty
      ensures Valid() && BootMarked()
    {
      hide Start, Blocks, Known, BootDirtyAt, BootMarks, TargetChip.Ready, Session.Ready, BootBytes;
      var f := chip.family;
      var bootBytes := BootBytes(f);
      ghost var marks := BootMarks(f, image.boot[..]);
      var addr := 0;
      ghost var k := 0;
      BootTiles(f);
      Tiles(f, bootBytes, 0);
      while addr < bootBytes
        invariant addr == Start(f, k) && k <= Blocks(f, bootBytes) <= bootDirty.Length && Valid()
        invariant bootDirty[..k] == marks[..k]
        decreases bootBytes - addr
      {
        Tiles(f, bootBytes, k);
        BootMarksAt(f, image.boot[..], k);
        var dirty := IsBootBlockDirty(addr);
        bootDirty[addr / f.bytesPerRow] := dirty;
        addr := addr + f.bytesPerRow;
        k := k + 1;
      }
      Tiles(f, bootBytes, k);
    }

    // ----- Writing ------------------------------------------------------------------

    /** The image bytes for a block. */
    ghost function BytesAt(addr: Word): seq<bv8>
      requires Apart() && InImage(chip.family, chip.flashBytes, addr)
      requires image.boot.Length == BOOT_BYTES && image.flash.Length == FLASH_BYTES
      reads image.boot, image.flash
    {
      var p := SourceOf(chip.family, chip.flashBytes, addr);
      if p.Boot? then image.boot[p.offset..p.offset + chip.family.bytesPerRow]
      else image.flash[p.offset..p.offset + chip.family.bytesPerRow]
    }

    method ProgramBlock(addr: Word) returns (ok: bool)
      requires Valid() && InImage(chip.family, chip.flashBytes, addr) && VirtToPhys(addr) + 2048 <= 0x1_0000_0000
      modifies chip.Repr() - {chip.session.usb}
      ensures Valid() && chip.Exec() == old(chip.Exec())
      ensures ok ==> Burned(old(chip.Memory()), chip.Memory(), VirtToPhys(addr), BytesAt(addr))
      ensures chip.session.written <= old(chip.session.written) + Addresses(VirtToPhys(addr), chip.family.bytesPerRow)
      ensures old(chip.session.once && chip.session.written !! Addresses(VirtToPhys(addr), chip.family.bytesPerRow)) ==>
                chip.session.once
      ensures Honest(ok, chip.Exec() || AllOnes(BytesAt(addr)), chip.Sound())
    {
      hide TargetChip.Ready, Session.Ready, Burned, AllOnes, Addresses;
      var bootBytes := BootBytes(chip.family);
      var blocksz := chip.family.bytesPerRow;
      assert blocksz / 4 * 4 == blocksz <= 2048 && blocksz / 4 % (blocksz / 4) == 0;
      if addr >= BOOTV_BASE && addr < BOOTV_BASE + bootBytes {
        ok := chip.ProgramBlock(addr, blocksz / 4, image.boot, addr - BOOTV_BASE);
      } else if addr >= BOOTP_BASE && addr < BOOTP_BASE + bootBytes {
        ok := chip.ProgramBlock(addr, blocksz / 4, image.boot, addr - BOOTP_BASE);
      } else if addr >= FLASHV_BASE && addr < FLASHV_BASE + chip.flashBytes {
        ok := chip.ProgramBlock(addr, blocksz / 4, image.flash, addr - FLASHV_BASE);
      } else {
        ok := chip.ProgramBlock(addr, blocksz / 4, image.flash, addr - FLASHP_BASE);
      }
    }

    method VerifyBlock(addr: Word) returns (ok: bool)
      requires Valid() && InImage(chip.family, chip.flashBytes, addr)
      modifies chip.Repr() - {chip.session.usb}
      ensures Valid() && chip.Exec() == old(chip.Exec())
      ensures chip.Memory() == old(chip.Memory()) && chip.session.once == old(chip.session.once)
      ensures Honest(ok, chip.Exec() && SameChecksum(chip.Memory(), VirtToPhys(addr), BytesAt(addr)), chip.Sound())
    {
      hide TargetChip.Ready, Session.Ready, SameChecksum;
      var bootBytes := BootBytes(chip.family);
      var blocksz := chip.family.bytesPerRow;
      assert blocksz / 4 * 4 == blocksz <= 2048;
      if addr >= BOOTV_BASE && addr < BOOTV_BASE + bootBytes {
        ok := chip.VerifyBlock(addr, blocksz / 4, image.boot, addr - BOOTV_BASE);
      } else if addr >= BOOTP_BASE && addr < BOOTP_BASE + bootBytes {
        ok := chip.VerifyBlock(addr, blocksz / 4, image.boot, addr - BOOTP_BASE);
      } else if addr >= FLASHV_BASE && addr < FLASHV_BASE + chip.flashBytes {
        ok := chip.VerifyBlock(addr, blocksz / 4, image.flash, addr - FLASHV_BASE);
      } else {
        ok := chip.VerifyBlock(addr, blocksz / 4, image.flash, addr - FLASHP_BASE);
      }
    }

    ghost predicate Accessible()
      reads image, image.boot, image.flash, chip.session, chip.session.usb, chip.session.usb.adapter.port
    {
      Valid() && image.boot.Length == BOOT_BYTES && image.flash.Length == FLASH_BYTES &&
          Staging(chip.family, image.boot[..])
    }

    /** Flash memory when the first `k` blocks have been dealt with. */
    ghost predicate FlashWritten(was: Memory, k: nat)
      requires Accessible()
      reads image, image.boot, image.flash, chip.session, chip.session.usb, chip.session.usb.adapter.port
    {
      var marks := FlashMarks(chip.family, image.flash[..], chip.flashBytes);
      && k <= |marks| && Start(chip.family, k) <= chip.flashBytes
      && (chip.Exec() || NoneDirty(marks[..k]))
      && WrittenTo(was, chip.Memory(), FLASHP_BASE, image.flash[..], Start(chip.family, k), chip.flashBytes)
      && Once(chip.session.written, chip.session.once, iset{}, FLASHP_BASE, Start(chip.family, k))
    }

    method ProgramFlashBlock(addr: nat, ghost was: Memory, ghost k: nat) returns (ok: bool)
      requires Accessible() && FlashWritten(was, k) && k < Blocks(chip.family, chip.flashBytes) &&
               addr == Start(chip.family, k)
      requires FlashMarks(chip.family, image.flash[..], chip.flashBytes)[k]
      modifies chip.Repr() - {chip.session.usb}
      ensures Accessible() && chip.Exec() == old(chip.Exec()) && Honest(ok, chip.Exec(), chip.Sound())
      ensures ok ==> FlashWritten(was, k + 1)
      ensures Once(chip.session.written, chip.session.once, iset{}, FLASHP_BASE, chip.flashBytes)
    {
      hide Start, Blocks, Known, FlashMarks, TargetChip.Ready, Session.Ready, BootBytes, InImage, SourceOf, VirtToPhys,
           Burned, WrittenTo, Addresses, AllOnes, Once, NoneDirty;
      var f := chip.family;
      FlashStep(f, image.flash[..], chip.flashBytes, k);
      NoneMore(FlashMarks(f, image.flash[..], chip.flashBytes), k);
      ghost var before, w1, o1 := chip.Memory(), chip.session.written, chip.session.once;
      ok := ProgramBlock(addr + FLASHV_BASE);
      OnceMore(w1, o1, chip.session.written, chip.session.once, iset{}, FLASHP_BASE, addr, f.bytesPerRow,
               chip.flashBytes);
      OnceSame(chip.session.written, chip.session.once, iset{}, FLASHP_BASE, addr + f.bytesPerRow, chip.flashBytes);
      if ok {
        BlockDone(was, before, chip.Memory(), FLASHP_BASE, image.flash[..], addr, addr + f.bytesPerRow,
                  chip.flashBytes, true);
      }
    }

    /** A block of flash with nothing to write. */
    lemma FlashBlockClean(was: Memory, k: nat)
      requires Accessible() && FlashWritten(was, k) && k < Blocks(chip.family, chip.flashBytes)
      requires !FlashMarks(chip.family, image.flash[..], chip.flashBytes)[k]
      ensures FlashWritten(was, k + 1)
    {
      hide Start, Blocks, Known, FlashMarks, TargetChip.Ready, Session.Ready, BootBytes, InImage, SourceOf, VirtToPhys,
           Burned, WrittenTo, Addresses, AllOnes, Once, NoneDirty;
      var f, addr := chip.family, Start(chip.family, k);
      FlashStep(f, image.flash[..], chip.flashBytes, k);
      NoneMore(FlashMarks(f, image.flash[..], chip.flashBytes), k);
      OnceSame(chip.session.written, chip.session.once, iset{}, FLASHP_BASE, addr, addr + f.bytesPerRow);
      BlockDone(was, chip.Memory(), chip.Memory(), FLASHP_BASE, image.flash[..], addr, addr + f.bytesPerRow,
                chip.flashBytes, false);
    }

    /** Write the dirty blocks of flash memory. */
    method ProgramFlash() returns (ok: bool)
      requires Accessible() && FlashMarked() && Blank(chip.Memory(), FLASHP_BASE, 0, chip.flashBytes)
      requires chip.session.written == iset{} && chip.session.once
      modifies chip.Repr() - {chip.session.usb}
      ensures Accessible() && chip.Exec() == old(chip.Exec())
      ensures Honest(ok, chip.Exec() || NoneDirty(FlashMarks(chip.family, image.flash[..], chip.flashBytes)),
                     chip.Sound())
      ensures ok ==>
              WrittenTo(old(chip.Memory()), chip.Memory(), FLASHP_BASE, image.flash[..], chip.flashBytes,
                        chip.flashBytes)
      ensures Once(chip.session.written, chip.session.once, iset{}, FLASHP_BASE, chip.flashBytes)
    {
      hide Start, Blocks, Known, FlashMarks, TargetChip.Ready, Session.Ready, BootBytes, Blank, WrittenTo, Once,
           NoneDirty, FlashDirtyAt;
      var f := chip.family;
      ghost var was, marks := chip.Memory(), FlashMarks(f, image.flash[..], chip.flashBytes);
      var addr := 0;
      ghost var k := 0;
      Tiles(f, chip.flashBytes, 0);
      NothingYet(was, FLASHP_BASE, image.flash[..], chip.flashBytes);
      NoneYet(marks, iset{}, true, FLASHP_BASE);
      while addr < chip.flashBytes
        invariant k <= Blocks(f, chip.flashBytes) && addr == Start(f, k) && Accessible() && FlashMarked()
        invariant FlashWritten(was, k) && chip.Exec() == old(chip.Exec())
        decreases chip.flashBytes - addr
      {
        Tiles(f, chip.flashBytes, k);
        NoneMore(marks, k);
        if flashDirty[addr / f.bytesPerRow] {
          assert marks[k];
          ok := ProgramFlashBlock(addr, was, k);
          if !ok {
            return;
          }
        } else {
          FlashBlockClean(was, k);
        }
        addr := addr + f.bytesPerRow;
        k := k + 1;
      }
      Tiles(f, chip.flashBytes, k);
      assert marks[..k] == marks;
      ok := true;
    }

    /** Boot memory when the first `k` blocks have been dealt with. */
    ghost predicate BootWritten(was: Memory, w0: iset<int>, k: nat)
      requires Accessible()
      reads image, image.boot, image.flash, chip.session, chip.session.usb, chip.session.usb.adapter.port
    {
      var f, boot := chip.family, image.boot[..];
      var marks := BootMarks(f, boot);
      && k <= |marks| && Start(f, k) <= BootBytes(f) <= BOOT_BYTES
      && (chip.Exec() || NoneDirty(marks[..k]))
      && WrittenTo(was, chip.Memory(), BOOTP_BASE, StagedBoot(f, boot), Start(f, k), BootBytes(f))
      && Once(chip.session.written, chip.session.once, w0, BOOTP_BASE, Start(f, k))
      && (!Configured(f, boot) ==> chip.session.written !! ConfigAddresses(f))
    }

    method ProgramBootBlock(addr: nat, ghost was: Memory, ghost w0: iset<int>, ghost k: nat) returns (ok: bool)
      requires Accessible() && BootWritten(was, w0, k) && k < Blocks(chip.family, BootBytes(chip.family)) &&
               addr == Start(chip.family, k)
      requires BootMarks(chip.family, image.boot[..])[k] && w0 !! Addresses(BOOTP_BASE, BootBytes(chip.family))
      modifies chip.Repr() - {chip.session.usb}
      ensures Accessible() && chip.Exec() == old(chip.Exec()) && Honest(ok, chip.Exec(), chip.Sound())
      ensures ok ==> BootWritten(was, w0, k + 1)
      ensures Once(chip.session.written, chip.session.once, w0, BOOTP_BASE, BootBytes(chip.family))
      ensures !Configured(chip.family, image.boot[..]) ==> chip.session.written !! ConfigAddresses(chip.family)
    {
      hide Start, Blocks, Known, BootMarks, TargetChip.Ready, Session.Ready, BootBytes, InImage, SourceOf, VirtToPhys,
           Burned, WrittenTo, Addresses, AllOnes, Once, NoneDirty, StagedBoot, Configured, ConfigAddresses;
      var f := chip.family;
      BootStep(f, image.boot[..], chip.flashBytes, k);
      NoneMore(BootMarks(f, image.boot[..]), k);
      ghost var before, w1, o1 := chip.Memory(), chip.session.written, chip.session.once;
      ok := ProgramBlock(addr + BOOTV_BASE);
      OnceMore(w1, o1, chip.session.written, chip.session.once, w0, BOOTP_BASE, addr, f.bytesPerRow, BootBytes(f));
      OnceSame(chip.session.written, chip.session.once, w0, BOOTP_BASE, addr + f.bytesPerRow, BootBytes(f));
      if ok {
        BlockDone(was, before, chip.Memory(), BOOTP_BASE, StagedBoot(f, image.boot[..]), addr, addr + f.bytesPerRow,
                  BootBytes(f), true);
      }
    }

    /** A block of boot memory with nothing to write but, perhaps, the configuration words. */
    lemma BootBlockClean(was: Memory, w0: iset<int>, k: nat)
      requires Accessible() && BootWritten(was, w0, k) && k < Blocks(chip.family, BootBytes(chip.family))
      requires !BootMarks(chip.family, image.boot[..])[k]
      ensures BootWritten(was, w0, k + 1)
    {
      hide Start, Blocks, Known, BootMarks, TargetChip.Ready, Session.Ready, BootBytes, InImage, SourceOf, VirtToPhys,
           Burned, WrittenTo, Addresses, AllOnes, Once, NoneDirty, StagedBoot, Configured, ConfigAddresses;
      var f, addr := chip.family, Start(chip.family, k);
      BootStep(f, image.boot[..], chip.flashBytes, k);
      NoneMore(BootMarks(f, image.boot[..]), k);
      OnceSame(chip.session.written, chip.session.once, w0, BOOTP_BASE, addr, addr + f.bytesPerRow);
      BlockDone(was, chip.Memory(), chip.Memory(), BOOTP_BASE, StagedBoot(f, image.boot[..]), addr,
                addr + f.bytesPerRow, BootBytes(f), false);
    }

    /** Write the dirty blocks of boot memory. */
    method ProgramBoot() returns (ok: bool)
      requires Accessible() && BootMarked() && Blank(chip.Memory(), BOOTP_BASE, 0, BootBytes(chip.family))
      requires chip.session.once && chip.session.written !! Addresses(BOOTP_BASE, BootBytes(chip.family))
      modifies chip.Repr() - {chip.session.usb}
      ensures Accessible() && chip.Exec() == old(chip.Exec()) && BootBytes(chip.family) <= BOOT_BYTES
      ensures Honest(ok, chip.Exec() || NoneDirty(BootMarks(chip.family, image.boot[..])), chip.Sound())
      ensures ok ==> WrittenTo(old(chip.Memory()), chip.Memory(), BOOTP_BASE, StagedBoot(chip.family, image.boot[..]),
                               BootBytes(chip.family), BootBytes(chip.family))
      ensures Once(chip.session.written, chip.session.once, old(chip.session.written), BOOTP_BASE,
                   BootBytes(chip.family))
      ensures !Configured(chip.family, image.boot[..]) ==> chip.session.written !! ConfigAddresses(chip.family)
    {
      hide Start, Blocks, Known, BootMarks, TargetChip.Ready, Session.Ready, BootBytes, Blank, WrittenTo, Once,
           NoneDirty, BootDirtyAt,
           Addresses, StagedBoot, Configured, ConfigAddresses;
      var f, bootBytes := chip.family, BootBytes(chip.family);
      ghost var was, marks, w0 := chip.Memory(), BootMarks(f, image.boot[..]), chip.session.written;
      var addr := 0;
      ghost var k := 0;
      BootTiles(f);
      Tiles(f, bootBytes, 0);
      NothingYet(was, BOOTP_BASE, StagedBoot(f, image.boot[..]), bootBytes);
      NoneYet(marks, w0, true, BOOTP_BASE);
      ConfigApart(f, w0);
      while addr < bootBytes
        invariant k <= Blocks(f, bootBytes) && addr == Start(f, k) && Accessible() && BootMarked()
        invariant BootWritten(was, w0, k) && chip.Exec() == old(chip.Exec())
        decreases bootBytes - addr
      {
        Tiles(f, bootBytes, k);
        NoneMore(marks, k);
        if bootDirty[addr / f.bytesPerRow] {
          assert marks[k];
          ok := ProgramBootBlock(addr, was, w0, k);
          if !ok {
            return;
          }
        } else {
          BootBlockClean(was, w0, k);
        }
        addr := addr + f.bytesPerRow;
        k := k + 1;
      }
      Tiles(f, bootBytes, k);
      assert marks[..k] == marks;
      ok := true;
    }

    /** Every dirty block is marked, and the block of the configuration words. */
    ghost predicate FinallyMarked()
      reads bootDirty, image.boot
      requires Apart() && image.boot.Length == BOOT_BYTES
    {
      var blocks := Blocks(chip.family, BootBytes(chip.family));
      && ConfigBlock(chip.family) < blocks <= bootDirty.Length
      && bootDirty[..blocks] == BootMarks(chip.family, image.boot[..])[ConfigBlock(chip.family) := true]
    }

    /** Write the configuration words from the image. */
    method WriteConfig() returns (outcome: Outcome)
      requires Accessible() && chip.family != MZ && (chip.family.peNwords != 0 ==> chip.Exec())
      requires chip.session.once && chip.session.written !! ConfigAddresses(chip.family)
      modifies chip.Repr() - {chip.session.usb}
      ensures Accessible() && chip.Exec() == old(chip.Exec()) && chip.session.once && outcome != NullCall
      ensures chip.Sound() || chip.family.devcfgOffset == 0 ==> outcome == Done
      ensures chip.family.devcfgOffset == 0 ==> chip.Memory() == old(chip.Memory())
      ensures outcome == Done && chip.family.devcfgOffset != 0 ==>
                Burned(old(chip.Memory()), chip.Memory(), BOOTP_BASE + chip.family.devcfgOffset,
                          image.boot[chip.family.devcfgOffset..chip.family.devcfgOffset + 16])
    {
      hide TargetChip.Ready, Session.Ready, Burned, Addresses, BytesWord, Quad, ConfigBytes;
      var o := chip.family.devcfgOffset;
      ConfigWords(image.boot[..], o);
      var devcfg3, devcfg2 := BytesWord(image.boot[o..o + 4]), BytesWord(image.boot[o + 4..o + 8]);
      var devcfg1, devcfg0 := BytesWord(image.boot[o + 8..o + 12]), BytesWord(image.boot[o + 12..o + 16]);
      outcome := chip.ProgramDevcfg(devcfg0, devcfg1, devcfg2, devcfg3);
    }

    /** Write boot memory, then the configuration words if their block was left out. */
    method WriteBoot() returns (outcome: Outcome)
      requires Accessible() && BootMarked() && Blank(chip.Memory(), BOOTP_BASE, 0, BootBytes(chip.family))
      requires chip.session.once && chip.session.written !! Addresses(BOOTP_BASE, BootBytes(chip.family))
      requires chip.family.peNwords != 0 ==> chip.Exec()
      requires chip.family == MZ ==> Configured(MZ, image.boot[..])
      modifies chip.Repr() - {chip.session.usb}, bootDirty
      ensures Accessible() && chip.Exec() == old(chip.Exec()) && chip.session.once &&
              BootBytes(chip.family) <= BOOT_BYTES
      ensures outcome != NullCall
      ensures Honest(outcome == Done, chip.Exec() || NoneDirty(BootMarks(chip.family, image.boot[..])), chip.Sound())
      ensures outcome == Done ==>
                WrittenTo(old(chip.Memory()), chip.Memory(), BOOTP_BASE, FinalBoot(chip.family, image.boot[..]),
                          BootBytes(chip.family), BootBytes(chip.family)) &&
                FinallyMarked()
    {
      hide Start, Blocks, BootMarks, TargetChip.Ready, Session.Ready, BootBytes, Blank, WrittenTo, NoneDirty,
           BootDirtyAt,
           Addresses, StagedBoot, Configured, ConfigAddresses, Burned;
      var f := chip.family;
      ghost var was, boot, marks := chip.Memory(), image.boot[..], BootMarks(f, image.boot[..]);
      BootTiles(f);
      ConfigMark(f, boot);
      ghost var before := chip.Memory();
      var ok := ProgramBoot();
      if !ok {
        return Failed;
      }
      outcome := Done;
      if !bootDirty[f.devcfgOffset / f.bytesPerRow] {
        ghost var middle := chip.Memory();
        outcome := WriteConfig();
        if outcome != Done {
          return;
        }
        if f.devcfgOffset != 0 {
          ConfigProgrammed(f, boot, was, middle, chip.Memory());
        }
        bootDirty[f.devcfgOffset / f.bytesPerRow] := true;
      }
    }

    // ----- Verification -------------------------------------------------------------

    /** Compare the marked blocks of flash with the image. */
    method VerifyFlash() returns (ok: bool)
      requires Accessible() && FlashMarked()
      modifies chip.Repr() - {chip.session.usb}
      ensures Accessible() && chip.Exec() == old(chip.Exec())
      ensures chip.Memory() == old(chip.Memory()) && chip.session.once == old(chip.session.once)
      ensures Honest(ok, Verifies(chip.family, chip.Exec(), chip.Memory(), FLASHP_BASE, image.flash[..],
                                  FlashMarks(chip.family, image.flash[..], chip.flashBytes)), chip.Sound())
    {
      hide Start, Blocks, Known, FlashMarks, TargetChip.Ready, Session.Ready, BootBytes, InImage, SourceOf, VirtToPhys,
           AllOnes, SameChecksum, Verifies, SameBlock;
      var f := chip.family;
      ghost var m, flash, marks := chip.Memory(), image.flash[..], FlashMarks(f, image.flash[..], chip.flashBytes);
      var addr := 0;
      ghost var k := 0;
      Tiles(f, chip.flashBytes, 0);
      VerifiesNone(f, chip.Exec(), m, FLASHP_BASE, flash, marks);
      while addr < chip.flashBytes
        invariant k <= Blocks(f, chip.flashBytes) && addr == Start(f, k) && Accessible() && FlashMarked()
        invariant chip.Exec() == old(chip.Exec()) && chip.Memory() == m && chip.session.once == old(chip.session.once)
        invariant Verifies(f, chip.Exec(), m, FLASHP_BASE, flash, marks[..k])
        decreases chip.flashBytes - addr
      {
        Tiles(f, chip.flashBytes, k);
        FlashStep(f, flash, chip.flashBytes, k);
        VerifiesMore(f, chip.Exec(), m, FLASHP_BASE, flash, marks, k);
        if flashDirty[addr / f.bytesPerRow] {
          assert marks[k];
          ok := VerifyBlock(addr + FLASHV_BASE);
          if !ok {
            return;
          }
        }
        addr := addr + f.bytesPerRow;
        k := k + 1;
      }
      Tiles(f, chip.flashBytes, k);
      assert marks[..k] == marks;
      ok := true;
    }

    /** Compare the marked blocks of boot memory with the image. */
    method VerifyBoot() returns (ok: bool)
      requires Accessible() && Blocks(chip.family, BootBytes(chip.family)) <= bootDirty.Length
      modifies chip.Repr() - {chip.session.usb}
      ensures Accessible() && chip.Exec() == old(chip.Exec())
      ensures chip.Memory() == old(chip.Memory()) && chip.session.once == old(chip.session.once)
      ensures Honest(ok, Verifies(chip.family, chip.Exec(), chip.Memory(), BOOTP_BASE, image.boot[..],
                                  bootDirty[..Blocks(chip.family, BootBytes(chip.family))]), chip.Sound())
    {
      hide Start, Blocks, Known, BootMarks, TargetChip.Ready, Session.Ready, BootBytes, InImage, SourceOf, VirtToPhys,
           AllOnes, SameChecksum, StagedBoot, Configured, ConfigAddresses, Addresses, Verifies, SameBlock;
      var f, bootBytes := chip.family, BootBytes(chip.family);
      ghost var m, boot, marks := chip.Memory(), image.boot[..], bootDirty[..Blocks(f, bootBytes)];
      var addr := 0;
      ghost var k := 0;
      BootTiles(f);
      Tiles(f, bootBytes, 0);
      VerifiesNone(f, chip.Exec(), m, BOOTP_BASE, boot, marks);
      while addr < bootBytes
        invariant k <= Blocks(f, bootBytes) && addr == Start(f, k) && Accessible()
        invariant chip.Exec() == old(chip.Exec()) && chip.Memory() == m && chip.session.once == old(chip.session.once)
        invariant Verifies(f, chip.Exec(), m, BOOTP_BASE, boot, marks[..k])
        decreases bootBytes - addr
      {
        Tiles(f, bootBytes, k);
        BootStep(f, boot, chip.flashBytes, k);
        VerifiesMore(f, chip.Exec(), m, BOOTP_BASE, boot, marks, k);
        if bootDirty[addr / f.bytesPerRow] {
          assert marks[k];
          ok := VerifyBlock(addr + BOOTV_BASE);
          if !ok {
            return;
          }
        }
        addr := addr + f.bytesPerRow;
        k := k + 1;
      }
      Tiles(f, bootBytes, k);
      assert marks[..k] == marks;
      ok := true;
    }

    // ----- The whole run --------------------------------------------------------------

    /** Refuse an image without configuration words; clear the signature bit on MZ parts. */
    method CheckConfig() returns (ok: bool)
      requires Valid()
      modifies image.boot
      ensures Valid() && (ok <==> !image.bootUsed || Devcfg0(chip.family, old(image.boot[..])) != 0xFFFFFFFF)
      ensures image.boot[..]
           == if ok && image.bootUsed then Signed(chip.family, old(image.boot[..])) else old(image.boot[..])
    {
      hide TargetChip.Ready, Session.Ready, BytesWord;
      ok := true;
      if image.bootUsed {
        var o := chip.family.devcfgOffset;
        if BytesWord(image.boot[o + 12..o + 16]) == 0xFFFFFFFF {
          return false;
        }
        if o == 0xffc0 {
          image.boot[0xFFEF] := image.boot[0xFFEF] & 0x7f;
        }
      }
    }

    /** Marks computed for what the image has. */
    ghost predicate Marked()
      reads image, image.boot, image.flash, bootDirty, flashDirty
      requires Apart() && image.boot.Length == BOOT_BYTES && image.flash.Length == FLASH_BYTES
    {
      (image.flashUsed ==> FlashMarked()) && (image.bootUsed ==> BootMarked())
    }

    /** No block has anything to write. */
    ghost predicate NothingDirty()
      reads image, image.boot, image.flash
      requires Apart()
    {
      && (image.flashUsed ==> NoneDirty(FlashMarks(chip.family, image.flash[..], chip.flashBytes)))
      && (image.bootUsed ==> NoneDirty(BootMarks(chip.family, image.boot[..])))
    }

    /** Write what the image has into an erased chip. */
    method WriteImage(ghost was: Memory) returns (outcome: Outcome)
      requires Accessible() && Marked()
      requires chip.Memory() == Erased(was, chip.flashBytes, BootBytes(chip.family))
      requires chip.session.once && chip.session.written == iset{}
      requires chip.family.peNwords != 0 ==> chip.Exec()
      requires chip.family == MZ && image.bootUsed ==> Configured(MZ, image.boot[..])
      modifies chip.Repr() - {chip.session.usb}, bootDirty
      ensures Accessible() && chip.Exec() == old(chip.Exec()) && chip.session.once &&
              BootBytes(chip.family) <= BOOT_BYTES
      ensures outcome != NullCall && Honest(outcome == Done, chip.Exec() || NothingDirty(), chip.Sound())
      ensures outcome == Done ==>
                Holding(chip.family, was, chip.Memory(), image.flash[..], chip.flashBytes,
                        if image.bootUsed then FinalBoot(chip.family, image.boot[..]) else image.boot[..])
      ensures outcome == Done && image.bootUsed ==> FinallyMarked()
      ensures image.flashUsed ==> FlashMarked()
    {
      hide Start, Blocks, BootMarks, FlashMarks, TargetChip.Ready, Session.Ready, BootBytes, NoneDirty, BootDirtyAt,
           Addresses, StagedBoot, Configured, FinalBoot, WrittenTo, Holding, Erased, Blank;
      var f := chip.family;
      ghost var m0 := chip.Memory();
      BootTiles(f);
      ErasedBlank(was, chip.flashBytes, BootBytes(f));
      outcome := Done;
      if image.flashUsed {
        var ok := ProgramFlash();
        if !ok {
          return Failed;
        }
      } else {
        OnesWritten(m0, FLASHP_BASE, image.flash[..], chip.flashBytes);
      }
      ghost var m1 := chip.Memory();
      FlashThenBoot(m0, m1, image.flash[..], chip.flashBytes, f, chip.session.written);
      if image.bootUsed {
        outcome := WriteBoot();
      } else {
        OnesWritten(m1, BOOTP_BASE, image.boot[..], BootBytes(f));
      }
      if outcome == Done {
        BothHold(f, was, m0, m1, chip.Memory(), image.flash[..], chip.flashBytes,
                 if image.bootUsed then FinalBoot(f, image.boot[..]) else image.boot[..]);
      }
    }

    /** What the comparison after a run finds. */
    ghost predicate Passes(marks: seq<bool>)
      reads image, image.boot, image.flash, chip.session, chip.session.usb
      requires Apart()
    {
      && (image.flashUsed ==> Verifies(chip.family, chip.Exec(), chip.Memory(), FLASHP_BASE, image.flash[..],
                                       FlashMarks(chip.family, image.flash[..], chip.flashBytes)))
      && (image.bootUsed ==> Verifies(chip.family, chip.Exec(), chip.Memory(), BOOTP_BASE, image.boot[..], marks))
    }

    method VerifyImage() returns (ok: bool)
      requires Accessible() && (image.flashUsed ==> FlashMarked())
      requires Blocks(chip.family, BootBytes(chip.family)) <= bootDirty.Length
      modifies chip.Repr() - {chip.session.usb}
      ensures Accessible() && chip.Exec() == old(chip.Exec())
      ensures chip.Memory() == old(chip.Memory()) && chip.session.once == old(chip.session.once)
      ensures Honest(ok, Passes(bootDirty[..Blocks(chip.family, BootBytes(chip.family))]), chip.Sound())
    {
      hide Start, Blocks, Known, BootMarks, FlashMarks, TargetChip.Ready, Session.Ready, BootBytes, Verifies;
      ok := true;
      if image.flashUsed {
        ok := VerifyFlash();
        if !ok {
          return;
        }
      }
      if image.bootUsed {
        ok := VerifyBoot();
      }
    }

    /** The same, with what a comparison afterwards will find. */
    method WriteComparable(ghost was: Memory) returns (outcome: Outcome)
      requires Accessible() && Marked()
      requires chip.Memory() == Erased(was, chip.flashBytes, BootBytes(chip.family))
      requires chip.session.once && chip.session.written == iset{}
      requires chip.Exec() == (chip.family.peNwords != 0)
      requires chip.family == MZ && image.bootUsed ==> Configured(MZ, image.boot[..])
      modifies chip.Repr() - {chip.session.usb}, bootDirty
      ensures Accessible() && chip.Exec() == old(chip.Exec()) && chip.session.once
      ensures BootBytes(chip.family) <= BOOT_BYTES && Blocks(chip.family, BootBytes(chip.family)) <= bootDirty.Length
      ensures outcome != NullCall && Honest(outcome == Done, chip.Exec() || NothingDirty(), chip.Sound())
      ensures outcome == Done ==>
                Holding(chip.family, was, chip.Memory(), image.flash[..], chip.flashBytes,
                        if image.bootUsed then FinalBoot(chip.family, image.boot[..]) else image.boot[..]) &&
                (image.flashUsed ==> FlashMarked()) &&
                Passes(bootDirty[..Blocks(chip.family, BootBytes(chip.family))]) == (chip.Exec() || !image.bootUsed)
    {
      hide Start, Blocks, BootMarks, FlashMarks, TargetChip.Ready, Session.Ready, BootBytes, NoneDirty, BootDirtyAt,
           Addresses, Configured, Holding, Erased, Verifies, StagedBoot;
      var f := chip.family;
      BootTiles(f);
      outcome := WriteImage(was);
      if outcome == Done {
        ghost var marks := bootDirty[..Blocks(f, BootBytes(f))];
        if chip.Exec() {
          HeldPasses(f, was, chip.Memory(), image.flash[..], chip.flashBytes, image.boot[..], marks);
        } else {
          NoneFail(f, chip.Memory(), FLASHP_BASE, image.flash[..], FlashMarks(f, image.flash[..], chip.flashBytes));
          if image.bootUsed {
            NotWithout(f, chip.Memory(), BOOTP_BASE, image.boot[..], marks, ConfigBlock(f));
          }
        }
      }
    }

    /** Erase the chip unless it is only to be compared; load the executive; mark the dirty
        blocks. */
    method Prepare(pe: seq<Word>, answer: Word, verifyOnly: bool) returns (ok: bool)
      requires Accessible() && !chip.Exec() && chip.family.peNwords <= |pe|
      modifies chip.Repr(), bootDirty, flashDirty
      ensures Accessible()
      ensures chip.Memory() == if verifyOnly then old(chip.Memory())
                               else Erased(old(chip.Memory()), chip.flashBytes, BootBytes(chip.family))
      ensures !verifyOnly ==> chip.session.once && chip.session.written == iset{}
      ensures (ok <==> Loads(chip.family, answer)) && chip.Exec() == (chip.family.peNwords != 0)
      ensures ok ==> Marked()
    {
      hide Start, Blocks, BootMarks, FlashMarks, TargetChip.Ready, Session.Ready, BootBytes, Erased,
           Executive.PE_EXEC_VERSION, Known;
      if !verifyOnly {
        chip.EraseChip();
      }
      ok := chip.UseExecutive(pe, answer);
      if !ok {
        return;
      }
      if image.flashUsed {
        MarkFlash();
      }
      if image.bootUsed {
        MarkBoot();
      }
    }

    /** Program a chip, or only compare it with the image. `answer` is what the executive says
        its version is. */
    method DoProgram(pe: seq<Word>, answer: Word, verifyOnly: bool, skipVerify: bool) returns (outcome: Outcome)
      requires Valid() && !chip.Exec() && chip.family.peNwords <= |pe|
      modifies chip.Repr(), image.boot, bootDirty, flashDirty
      ensures Valid() && BootBytes(chip.family) <= BOOT_BYTES && outcome != NullCall
      ensures var f, boot0 := chip.family, old(image.boot[..]);
              var ready := !image.bootUsed || Devcfg0(f, boot0) != 0xFFFFFFFF;
              && image.boot[..] == (if ready && image.bootUsed then Signed(f, boot0) else boot0)
              && (verifyOnly || !ready ==> chip.Memory() == old(chip.Memory()))
              && (if ready then chip.Exec() == (f.peNwords != 0) else outcome == Failed && !chip.Exec())
              && (!verifyOnly ==>
                    Honest(outcome == Done,
                           ready && Loads(f, answer) &&
                           (f.peNwords != 0 || (NothingDirty() && (skipVerify || !image.bootUsed))), chip.Sound()))
              && (verifyOnly && ready ==>
                    Honest(outcome == Done, Loads(f, answer) && (skipVerify || Passes(BootMarks(f, image.boot[..]))),
                           chip.Sound()))
      ensures outcome == Done && !verifyOnly ==>
                chip.session.once &&
                Holding(chip.family, old(chip.Memory()), chip.Memory(), image.flash[..], chip.flashBytes,
                        if image.bootUsed then FinalBoot(chip.family, image.boot[..]) else image.boot[..]) &&
                (Holding(chip.family, old(chip.Memory()), chip.Memory(), image.flash[..], chip.flashBytes,
                         image.boot[..])
                 <==> chip.family != BOOTLOADER || !image.bootUsed)
    {
      hide Start, Blocks, BootMarks, FlashMarks, TargetChip.Ready, Session.Ready, BootBytes, NoneDirty, BootDirtyAt,
           Addresses, Configured, Holding, Erased, Signed, Devcfg0, Verifies, FinalBoot, Loads;
      var f := chip.family;
      ghost var was, boot0 := chip.Memory(), image.boot[..];
      BootTiles(f);
      var ok := CheckConfig();
      if !ok {
        return Failed;
      }
      SignedConfigured(boot0);
      ok := Prepare(pe, answer, verifyOnly);
      if !ok {
        return Failed;
      }
      if !verifyOnly {
        outcome := WriteComparable(was);
        if outcome == Failed {
          return Failed;
        }
        NoneConfigured(f, boot0);
        NoneConfigured(f, image.boot[..]);
        HoldsUnless(f, was, chip.Memory(), image.flash[..], chip.flashBytes, image.boot[..], image.bootUsed);
      }
      outcome := Done;
      if !skipVerify {
        ok := VerifyImage();
        outcome := if ok then Done else Failed;
      }
    }
  }

  lemma SignedConfigured(boot: seq<bv8>)
    requires |boot| == BOOT_BYTES
    ensures Configured(MZ, Signed(MZ, boot))
  {
    SignedIsDirty(boot);
  }

  /** Memory that holds the image passes the comparison. */
  lemma HeldPasses(f: Family, was: Memory, m: Memory, flash: seq<bv8>, flashBytes: nat, boot: seq<bv8>,
                   marks: seq<bool>)
    requires Known(f) && flashBytes <= FLASH_BYTES == |flash| && flashBytes % f.bytesPerRow == 0
    requires |boot| == BOOT_BYTES && BootBytes(f) <= BOOT_BYTES && |marks| == Blocks(f, BootBytes(f))
    requires Holding(f, was, m, flash, flashBytes, boot)
    ensures Verifies(f, true, m, FLASHP_BASE, flash, FlashMarks(f, flash, flashBytes))
    ensures Verifies(f, true, m, BOOTP_BASE, boot, marks)
  {
    hide Start, Blocks, FlashMarks, SameBlock, Matches, BootBytes;
    BootTiles(f);
    forall k: nat | k < Blocks(f, flashBytes)
      ensures SameBlock(f, m, FLASHP_BASE, flash, k)
    {
      MatchingBlock(f, m, FLASHP_BASE, flash, flashBytes, k);
    }
    forall k: nat | k < |marks|
      ensures SameBlock(f, m, BOOTP_BASE, boot, k)
    {
      MatchingBlock(f, m, BOOTP_BASE, boot, BootBytes(f), k);
    }
  }

  lemma MatchingBlock(f: Family, m: Memory, base: Word, data: seq<bv8>, bytes: nat, k: nat)
    requires Known(f) && bytes <= |data| && bytes % f.bytesPerRow == 0 && k < Blocks(f, bytes)
    requires base + bytes <= 0x1_0000_0000 && Matches(m, base, data, bytes)
    ensures SameBlock(f, m, base, data, k)
  {
    hide Start, Blocks, Known, Crc.CrcOf;
    Tiles(f, bytes, k);
    MatchingRange(m, base, data, bytes, Start(f, k), f.bytesPerRow);
  }

  lemma MatchingRange(m: Memory, base: Word, data: seq<bv8>, bytes: nat, lo: nat, n: nat)
    requires lo + n <= bytes <= |data| && 0 < n && base + bytes <= 0x1_0000_0000 && Matches(m, base, data, bytes)
    ensures Range(m, base + lo, n) == data[lo..lo + n]
  {
    hide Wrap;
    var block, there := data[lo..lo + n], Range(m, base + lo, n);
    forall i | 0 <= i < n
      ensures there[i] == block[i]
    {
      NoWrap(base + lo + i);
      assert Within(base + lo + i, base, bytes);
      assert there[i] == m(base + lo + i) == data[lo + i];
    }
  }

  lemma NoWrap(x: Word)
    ensures Wrap(x) == x
  {
  }

  /** Flash and boot memory hold these bytes over the chip's ranges; the rest is as it was. */
  ghost predicate Holding(f: Family, was: Memory, now: Memory, flash: seq<bv8>, flashBytes: nat, boot: seq<bv8>)
    requires flashBytes <= |flash| && BootBytes(f) <= |boot|
  {
    && Matches(now, FLASHP_BASE, flash, flashBytes)
    && Matches(now, BOOTP_BASE, boot, BootBytes(f))
    && forall x: int :: !Within(x, FLASHP_BASE, flashBytes) && !Within(x, BOOTP_BASE, BootBytes(f)) ==> now(x) == was(x)
  }

  lemma ErasedBlank(was: Memory, flashBytes: nat, bootBytes: nat)
    ensures var m := Erased(was, flashBytes, bootBytes);
            Blank(m, FLASHP_BASE, 0, flashBytes) && Blank(m, BOOTP_BASE, 0, bootBytes)
  {
    var m := Erased(was, flashBytes, bootBytes);
    forall x: int | FLASHP_BASE <= x < FLASHP_BASE + flashBytes
      ensures m(x) == 0xFF
    {
      assert Within(x, FLASHP_BASE, flashBytes);
    }
    forall x: int | BOOTP_BASE <= x < BOOTP_BASE + bootBytes
      ensures m(x) == 0xFF
    {
      assert Within(x, BOOTP_BASE, bootBytes);
    }
  }

  /** A blank range holds an image that is all ones. */
  lemma OnesWritten(m: Memory, base: Word, data: seq<bv8>, n: nat)
    requires Blank(m, base, 0, n) && n <= |data| && AllOnes(data)
    ensures WrittenTo(m, m, base, data, n, n)
  {
  }

  /** Writing flash leaves boot memory blank. */
  lemma FlashThenBoot(m0: Memory, m1: Memory, flash: seq<bv8>, flashBytes: nat, f: Family, written: iset<int>)
    requires flashBytes <= FLASH_BYTES == |flash| && Blank(m0, BOOTP_BASE, 0, BootBytes(f))
    requires WrittenTo(m0, m1, FLASHP_BASE, flash, flashBytes, flashBytes)
    requires written <= iset{} + Addresses(FLASHP_BASE, flashBytes)
    ensures Blank(m1, BOOTP_BASE, 0, BootBytes(f)) && written !! Addresses(BOOTP_BASE, BootBytes(f))
  {
    hide BootBytes;
  }

  /** Writing boot memory leaves flash as it is. */
  lemma BothHold(f: Family, was: Memory, m0: Memory, m1: Memory, m2: Memory, flash: seq<bv8>, flashBytes: nat,
                 boot: seq<bv8>)
    requires Known(f) && flashBytes <= FLASH_BYTES == |flash| && BootBytes(f) <= |boot|
    requires m0 == Erased(was, flashBytes, BootBytes(f))
    requires WrittenTo(m0, m1, FLASHP_BASE, flash, flashBytes, flashBytes)
    requires WrittenTo(m1, m2, BOOTP_BASE, boot, BootBytes(f), BootBytes(f))
    ensures Holding(f, was, m2, flash, flashBytes, boot)
  {
    hide BootBytes;
    forall x: int | Within(x, FLASHP_BASE, flashBytes)
      ensures m2(x) == flash[x - FLASHP_BASE]
    {
      assert m1(x) == flash[x - FLASHP_BASE];
    }
    forall x: int | !Within(x, FLASHP_BASE, flashBytes) && !Within(x, BOOTP_BASE, BootBytes(f))
      ensures m2(x) == was(x)
    {
      assert m0(x) == was(x);
    }
  }

  /** Block `k` of the memory has the checksum of the block in the image. */
  predicate SameBlock(f: Family, m: Memory, base: Word, data: seq<bv8>, k: nat)
  {
    var lo := Start(f, k);
    && lo + f.bytesPerRow <= |data| && base + lo < 0x1_0000_0000
    && SameChecksum(m, base + lo, data[lo..lo + f.bytesPerRow])
  }

  /** Every marked block passes; without the executive none can. */
  predicate Verifies(f: Family, exec: bool, m: Memory, base: Word, data: seq<bv8>, marks: seq<bool>)
  {
    forall k: nat {:trigger marks[k]} :: k < |marks| && marks[k] ==> exec && SameBlock(f, m, base, data, k)
  }

  lemma NoneFail(f: Family, m: Memory, base: Word, data: seq<bv8>, marks: seq<bool>)
    requires NoneDirty(marks)
    ensures Verifies(f, false, m, base, data, marks)
  {
  }

  lemma NotWithout(f: Family, m: Memory, base: Word, data: seq<bv8>, marks: seq<bool>, k: nat)
    requires k < |marks| && marks[k]
    ensures !Verifies(f, false, m, base, data, marks)
  {
  }

  /** A block that differs from the image by a burst of at most 16 bits is found if it is
      marked. */
  lemma BurstFound(f: Family, exec: bool, m: Memory, base: Word, data: seq<bv8>, marks: seq<bool>, k: nat, at: nat)
    requires k < |marks| && marks[k] && Start(f, k) + f.bytesPerRow <= |data| && base + Start(f, k) < 0x1_0000_0000
    requires var block := data[Start(f, k)..Start(f, k) + f.bytesPerRow];
             var there := Range(m, base + Start(f, k), f.bytesPerRow);
             there != block && Crc.Burst(Crc.Bits(there), Crc.Bits(block), at)
    ensures !Verifies(f, exec, m, base, data, marks)
  {
    var block := data[Start(f, k)..Start(f, k) + f.bytesPerRow];
    var there := Range(m, base + Start(f, k), f.bytesPerRow);
    Crc.DetectsBlockBurst(0xFFFF, there, block, at);
    assert !SameBlock(f, m, base, data, k);
  }

  /** Nothing else is looked at: memories that agree on the marked blocks fare the same. */
  lemma OnlyMarkedBlocks(f: Family, exec: bool, m: Memory, n: Memory, base: Word, data: seq<bv8>, marks: seq<bool>)
    requires forall k: nat {:trigger marks[k]} :: k < |marks| && marks[k] ==>
               base + Start(f, k) < 0x1_0000_0000 &&
                   Range(m, base + Start(f, k), f.bytesPerRow) == Range(n, base + Start(f, k), f.bytesPerRow)
    ensures Verifies(f, exec, m, base, data, marks) == Verifies(f, exec, n, base, data, marks)
  {
    hide Range, Start;
    forall k: nat | k < |marks| && marks[k]
      ensures SameBlock(f, m, base, data, k) == SameBlock(f, n, base, data, k)
    {
    }
  }

  lemma VerifiesNone(f: Family, exec: bool, m: Memory, base: Word, data: seq<bv8>, marks: seq<bool>)
    ensures Verifies(f, exec, m, base, data, marks[..0])
  {
  }

  lemma VerifiesMore(f: Family, exec: bool, m: Memory, base: Word, data: seq<bv8>, marks: seq<bool>, k: nat)
    requires k < |marks|
    ensures Verifies(f, exec, m, base, data, marks[..k + 1]) <==>
              Verifies(f, exec, m, base, data, marks[..k]) && (marks[k] ==> exec && SameBlock(f, m, base, data, k))
    ensures Verifies(f, exec, m, base, data, marks) ==> (marks[k] ==> exec && SameBlock(f, m, base, data, k))
    ensures var lo, hi := Start(f, k), Start(f, k) + f.bytesPerRow;
            hi <= |data| && base + lo < 0x1_0000_0000 ==>
              SameBlock(f, m, base, data, k) == SameChecksum(m, base + lo, data[lo..hi])
  {
    hide Start, SameChecksum;
    var x, y := marks[..k + 1], marks[..k];
    assert x[k] == marks[k];
    forall j: nat | j < k
      ensures x[j] == y[j]
    {
    }
  }

  /** A blank range written up to `lo`, and nothing else touched. */
  ghost predicate WrittenTo(was: Memory, now: Memory, base: Word, data: seq<bv8>, lo: nat, end: nat)
    requires lo <= end <= |data|
  {
    Matches(now, base, data, lo) && Blank(now, base, lo, end) && SameOutside(was, now, base, end)
  }

  /** One block further. */
  lemma BlockDone(was: Memory, m0: Memory, m1: Memory, base: Word, data: seq<bv8>, lo: nat, hi: nat, end: nat,
                  dirty: bool)
    requires lo < hi <= end <= |data| && base + end <= 0x1_0000_0000
    requires WrittenTo(was, m0, base, data, lo, end)
    requires if dirty then Burned(m0, m1, base + lo, data[lo..hi]) else m0 == m1 && AllOnes(data[lo..hi])
    ensures WrittenTo(was, m1, base, data, hi, end)
  {
    hide Matches, Blank, SameOutside, Burned, AllOnes;
    if dirty {
      BlockProgrammed(m0, m1, base, data, lo, hi, end);
      SameTwice(was, m0, m1, base, end);
    } else {
      BlockSkipped(m0, base, data, lo, hi, end);
    }
  }

  /** What one turn over a block of flash needs. */
  lemma FlashStep(f: Family, flash: seq<bv8>, flashBytes: nat, k: nat)
    requires Known(f) && flashBytes <= FLASH_BYTES == |flash| && flashBytes % f.bytesPerRow == 0 &&
             k < Blocks(f, flashBytes)
    ensures var addr, row := Start(f, k), f.bytesPerRow;
            && 0 < row && addr / row == k && Start(f, k + 1) == addr + row <= flashBytes
            && FlashMarks(f, flash, flashBytes)[k] == !AllOnes(flash[addr..addr + row])
            && SourceOf(f, flashBytes, FLASHV_BASE + addr) == Flash(addr) && InImage(f, flashBytes, FLASHV_BASE + addr)
            && VirtToPhys(FLASHV_BASE + addr) == FLASHP_BASE + addr
  {
    hide Start, Blocks, Known, SourceOf, InImage, VirtToPhys, Addresses, AllOnes, FlashDirty, FlashMarks;
    Tiles(f, flashBytes, k);
    FlashMarksAt(f, flash, flashBytes, k);
    FlashWindow(f, flashBytes, Start(f, k));
    CleanFlash(flash, Start(f, k), f.bytesPerRow);
  }

  /** What one turn over a block of boot memory needs. */
  lemma BootStep(f: Family, boot: seq<bv8>, flashBytes: nat, k: nat)
    requires Staging(f, boot) && k < Blocks(f, BootBytes(f))
    ensures var addr, row := Start(f, k), f.bytesPerRow;
            && 0 < row && addr / row == k && Start(f, k + 1) == addr + row <= BootBytes(f) <= BOOT_BYTES
            && (if BootMarks(f, boot)[k]
                then StagedBoot(f, boot)[addr..addr + row] == boot[addr..addr + row]
                     && !AllOnes(boot[addr..addr + row])
                     && (Configured(f, boot) || ConfigAddresses(f) !! Addresses(BOOTP_BASE + addr, row))
                else AllOnes(StagedBoot(f, boot)[addr..addr + row]))
            && SourceOf(f, flashBytes, BOOTV_BASE + addr) == Boot(addr) && InImage(f, flashBytes, BOOTV_BASE + addr)
            && VirtToPhys(BOOTV_BASE + addr) == BOOTP_BASE + addr
  {
    BootMarksAt(f, boot, k);
    hide Start, Blocks, Known, SourceOf, InImage, VirtToPhys, Addresses, AllOnes, BootDirty, BootMarks, StagedBoot,
         BootBytes,
         Configured, ConfigAddresses;
    BootTiles(f);
    Tiles(f, BootBytes(f), k);
    BootWindow(f, flashBytes, Start(f, k));
    if BootMarks(f, boot)[k] {
      StagedDirty(f, boot, k);
      if !Configured(f, boot) {
        ConfigElsewhere(f, boot, k);
      }
    } else {
      StagedClean(f, boot, k);
    }
  }

  /** Nothing was programmed twice, and nothing but `w0` and the start of a range was
      programmed at all. */
  ghost predicate Once(written: iset<int>, once: bool, w0: iset<int>, base: Word, lo: nat)
  {
    once && written <= w0 + Addresses(base, lo)
  }

  lemma OnceMore(w1: iset<int>, o1: bool, w2: iset<int>, o2: bool, w0: iset<int>, base: Word, lo: nat, row: nat,
                 end: nat)
    requires lo + row <= end && base + end < 0x1_0000_0000
    requires Once(w1, o1, w0, base, lo) && w0 !! Addresses(base, end)
    requires w2 <= w1 + Addresses(base + lo, row) && (o1 && w1 !! Addresses(base + lo, row) ==> o2)
    ensures Once(w2, o2, w0, base, lo + row)
  {
    MoreAddresses(base, lo, row, end);
  }

  lemma OnceSame(w: iset<int>, o: bool, w0: iset<int>, base: Word, lo: nat, hi: nat)
    requires lo <= hi && Once(w, o, w0, base, lo)
    ensures Once(w, o, w0, base, hi)
  {
  }

  lemma ConfigWords(boot: seq<bv8>, o: nat)
    requires o + 16 <= |boot|
    ensures ConfigBytes(BytesWord(boot[o + 12..o + 16]), BytesWord(boot[o + 8..o + 12]),
                        BytesWord(boot[o + 4..o + 8]), BytesWord(boot[o..o + 4])) == boot[o..o + 16]
  {
    hide BytesWord, Quad;
    QuadOf(boot[o..o + 4]);
    QuadOf(boot[o + 4..o + 8]);
    QuadOf(boot[o + 8..o + 12]);
    QuadOf(boot[o + 12..o + 16]);
    assert boot[o..o + 4] + boot[o + 4..o + 8] + boot[o + 8..o + 12] + boot[o + 12..o + 16] == boot[o..o + 16];
  }

  /** Boot memory when all is written: families without configuration words in the table
      leave the first sixteen bytes out of a block that is otherwise clean. */
  function FinalBoot(f: Family, boot: seq<bv8>): (e: seq<bv8>)
    requires Staging(f, boot)
    ensures |e| == |boot|
  {
    if f.devcfgOffset != 0 then boot else StagedBoot(f, boot)
  }

  lemma ConfigMark(f: Family, boot: seq<bv8>)
    requires Staging(f, boot)
    ensures f.bytesPerRow > 0 && ConfigBlock(f) < |BootMarks(f, boot)| <= BOOT_BYTES / MINBLOCKSZ
    ensures BootMarks(f, boot)[ConfigBlock(f)] == Configured(f, boot)
    ensures Configured(f, boot) ==> StagedBoot(f, boot) == boot
  {
    BootTiles(f);
  }

  /** The executive, if the family has one, answers with the right version. */
  predicate Loads(f: Family, answer: Word)
  {
    f.peNwords == 0 || answer == Executive.PE_EXEC_VERSION + f.peVersion
  }

  lemma NoneConfigured(f: Family, boot: seq<bv8>)
    requires Staging(f, boot)
    ensures NoneDirty(BootMarks(f, boot)) ==> !Configured(f, boot)
    ensures f == BOOTLOADER ==> Signed(f, boot) == boot
  {
    ConfigMark(f, boot);
  }

  /** What a completed run leaves is the image, except with the bootloader entry of the family
      table: it has no executive, so that nothing can be dirty, and no place for the
      configuration words, which are therefore left out. */
  lemma HoldsUnless(f: Family, was: Memory, m: Memory, flash: seq<bv8>, flashBytes: nat, boot: seq<bv8>, used: bool)
    requires Staging(f, boot) && BootBytes(f) <= BOOT_BYTES && flashBytes <= |flash|
    requires Holding(f, was, m, flash, flashBytes, if used then FinalBoot(f, boot) else boot)
    requires f == BOOTLOADER && used ==> Devcfg0(f, boot) != 0xFFFFFFFF && !Configured(f, boot)
    ensures Holding(f, was, m, flash, flashBytes, boot) <==> f != BOOTLOADER || !used
  {
    hide Configured;
    if f == BOOTLOADER && used {
      OnesWord(boot[12..16]);
      var i :| 0 <= i < 4 && boot[12..16][i] != 0xFF;
      assert Within(BOOTP_BASE + 12 + i, BOOTP_BASE, BootBytes(f));
      assert m(BOOTP_BASE + 12 + i) == FinalBoot(f, boot)[12 + i] == 0xFF != boot[12 + i];
    }
  }

  /** An image with which that happens: nothing but a configuration word. */
  lemma BootloaderExample() returns (boot: seq<bv8>)
    ensures |boot| == BOOT_BYTES && Devcfg0(BOOTLOADER, boot) != 0xFFFFFFFF
    ensures NoneDirty(BootMarks(BOOTLOADER, boot)) && FinalBoot(BOOTLOADER, boot) != boot
  {
    boot := seq(BOOT_BYTES, i => if i == 12 then 0 else 0xFF);
    OnesWord(boot[12..16]);
    assert boot[12..16][0] == 0;
    forall k: nat | k < |BootMarks(BOOTLOADER, boot)|
      ensures !BootMarks(BOOTLOADER, boot)[k]
    {
      assert !BootDirtyAt(BOOTLOADER, boot, k);
    }
    assert FinalBoot(BOOTLOADER, boot)[12] != boot[12];
  }

  /** The configuration words complete the staged boot memory. */
  lemma ConfigProgrammed(f: Family, boot: seq<bv8>, was: Memory, m0: Memory, m1: Memory)
    requires Staging(f, boot) && BootBytes(f) <= BOOT_BYTES && !Configured(f, boot)
    requires WrittenTo(was, m0, BOOTP_BASE, StagedBoot(f, boot), BootBytes(f), BootBytes(f))
    requires Burned(m0, m1, BOOTP_BASE + f.devcfgOffset, boot[f.devcfgOffset..f.devcfgOffset + 16])
    ensures WrittenTo(was, m1, BOOTP_BASE, boot, BootBytes(f), BootBytes(f))
  {
    hide And, Configured;
    BootTiles(f);
    var base, o := BOOTP_BASE, f.devcfgOffset;
    var words := boot[o..o + 16];
    forall x: int | Within(x, base, BootBytes(f))
      ensures m1(x) == boot[x - base]
    {
      assert m0(x) == StagedBoot(f, boot)[x - base];
      if InDevcfg(x - base, o) {
        assert m1(x) == And(m0(x), words[x - (base + o)]) && words[x - (base + o)] == boot[x - base];
        AndOnes(boot[x - base]);
      }
    }
    forall x: int | !Within(x, base, BootBytes(f))
      ensures m1(x) == was(x)
    {
      assert m0(x) == was(x);
    }
  }

  /** The sizes fit. */
  predicate Staging(f: Family, boot: seq<bv8>)
  {
    Known(f) && |boot| == BOOT_BYTES && f.devcfgOffset + 16 <= BOOT_BYTES
  }

  /** The block of the configuration words is dirty, so that they are written with it. */
  predicate Configured(f: Family, boot: seq<bv8>)
    requires Known(f)
  {
    BootDirtyAt(f, boot, ConfigBlock(f))
  }

  function StagedBoot(f: Family, boot: seq<bv8>): (e: seq<bv8>)
    requires Staging(f, boot)
    ensures |e| == |boot|
  {
    Staged(boot, f.devcfgOffset, Configured(f, boot))
  }

  ghost function ConfigAddresses(f: Family): iset<int>
  {
    Addresses(BOOTP_BASE + f.devcfgOffset, 16)
  }

  lemma NoneYet(marks: seq<bool>, w: iset<int>, once: bool, base: Word)
    ensures NoneDirty(marks[..0]) && (once ==> Once(w, once, w, base, 0))
  {
  }

  lemma ConfigApart(f: Family, w: iset<int>)
    requires Known(f) && w !! Addresses(BOOTP_BASE, BootBytes(f))
    ensures w !! ConfigAddresses(f)
  {
    BootTiles(f);
    assert ConfigAddresses(f) <= Addresses(BOOTP_BASE, BootBytes(f));
  }

  predicate NoneDirty(marks: seq<bool>)
  {
    forall k :: 0 <= k < |marks| ==> !marks[k]
  }

  /** The block of a byte. */
  lemma InBlock(f: Family, bytes: nat, i: nat)
    requires Known(f) && bytes % f.bytesPerRow == 0 && i < bytes
    ensures var k := i / f.bytesPerRow;
            0 <= k < Blocks(f, bytes) && Start(f, k) <= i < Start(f, k) + f.bytesPerRow <= bytes
  {
  }

  /** No block is dirty exactly when every byte is blank. */
  lemma NoFlashDirty(f: Family, flash: seq<bv8>, bytes: nat)
    requires Known(f) && bytes <= FLASH_BYTES == |flash| && bytes % f.bytesPerRow == 0
    ensures NoneDirty(FlashMarks(f, flash, bytes)) <==> forall i :: 0 <= i < bytes ==> flash[i] == 0xFF
  {
    hide Start, Blocks, Known;
    var marks := FlashMarks(f, flash, bytes);
    forall k: nat | k < |marks|
      ensures Start(f, k) + f.bytesPerRow <= bytes && marks[k] == FlashDirty(flash, Start(f, k), f.bytesPerRow)
    {
      FlashMarksAt(f, flash, bytes, k);
    }
    if NoneDirty(marks) {
      forall i: nat | i < bytes
        ensures flash[i] == 0xFF
      {
        InBlock(f, bytes, i);
        assert !marks[i / f.bytesPerRow];
      }
    }
  }

  /** The same for boot memory, the configuration words aside. */
  lemma NoBootDirty(f: Family, boot: seq<bv8>)
    requires Known(f) && |boot| == BOOT_BYTES && BootBytes(f) <= BOOT_BYTES
    ensures NoneDirty(BootMarks(f, boot)) <==>
            forall i :: 0 <= i < BootBytes(f) && !InDevcfg(i, f.devcfgOffset) ==> boot[i] == 0xFF
  {
    BootTiles(f);
    hide Start, Blocks, Known, BootBytes;
    var marks := BootMarks(f, boot);
    forall k: nat | k < |marks|
      ensures Start(f, k) + f.bytesPerRow <= BootBytes(f) &&
              marks[k] == BootDirty(boot, Start(f, k), f.bytesPerRow, f.devcfgOffset)
    {
      BootMarksAt(f, boot, k);
    }
    if NoneDirty(marks) {
      forall i: nat | i < BootBytes(f) && !InDevcfg(i, f.devcfgOffset)
        ensures boot[i] == 0xFF
      {
        InBlock(f, BootBytes(f), i);
        assert !marks[i / f.bytesPerRow];
      }
    }
  }

  lemma NoneMore(marks: seq<bool>, k: nat)
    requires k < |marks|
    ensures NoneDirty(marks[..k + 1]) <==> NoneDirty(marks[..k]) && !marks[k]
    ensures NoneDirty(marks) ==> !marks[k]
  {
    assert marks[..k + 1] == marks[..k] + [marks[k]];
    if NoneDirty(marks[..k + 1]) {
      forall j | 0 <= j < k
        ensures !marks[..k][j]
      {
        assert marks[..k][j] == marks[..k + 1][j];
      }
      assert !marks[..k + 1][k];
    }
  }

  lemma NothingYet(m: Memory, base: Word, data: seq<bv8>, n: nat)
    requires Blank(m, base, 0, n) && n <= |data|
    ensures WrittenTo(m, m, base, data, 0, n)
  {
  }

  lemma SameTwice(m0: Memory, m1: Memory, m2: Memory, base: Word, n: nat)
    requires SameOutside(m0, m1, base, n) && SameOutside(m1, m2, base, n)
    ensures SameOutside(m0, m2, base, n)
  {
  }

  /** Where the bytes for a block come from; an address in no known window is taken for a
      physical flash address. */
  function SourceOf(f: Family, flashBytes: nat, addr: Word): Place
  {
    if Within(addr, BOOTV_BASE, BootBytes(f)) then Boot(addr - BOOTV_BASE)
    else if Within(addr, BOOTP_BASE, BootBytes(f)) then Boot(addr - BOOTP_BASE)
    else if Within(addr, FLASHV_BASE, flashBytes) then Flash(addr - FLASHV_BASE)
    else if addr >= FLASHP_BASE then Flash(addr - FLASHP_BASE)
    else Nowhere
  }

  predicate InImage(f: Family, flashBytes: nat, addr: Word)
  {
    match SourceOf(f, flashBytes, addr)
    case Boot(o) => o + f.bytesPerRow <= BOOT_BYTES
    case Flash(o) => o + f.bytesPerRow <= FLASH_BYTES
    case Nowhere => false
  }

  lemma FlashWindow(f: Family, flashBytes: nat, o: nat)
    requires Known(f) && flashBytes <= FLASH_BYTES && o + f.bytesPerRow <= flashBytes
    ensures SourceOf(f, flashBytes, FLASHV_BASE + o) == Flash(o) && InImage(f, flashBytes, FLASHV_BASE + o)
    ensures VirtToPhys(FLASHV_BASE + o) == FLASHP_BASE + o
  {
  }

  lemma BootWindow(f: Family, flashBytes: nat, o: nat)
    requires Known(f) && o + f.bytesPerRow <= BootBytes(f)
    ensures SourceOf(f, flashBytes, BOOTV_BASE + o) == Boot(o) && InImage(f, flashBytes, BOOTV_BASE + o)
    ensures VirtToPhys(BOOTV_BASE + o) == BOOTP_BASE + o
  {
  }

  predicate FlashDirtyAt(f: Family, flash: seq<bv8>, k: nat)
  {
    Start(f, k) + f.bytesPerRow <= |flash| && FlashDirty(flash, Start(f, k), f.bytesPerRow)
  }

  predicate BootDirtyAt(f: Family, boot: seq<bv8>, k: nat)
  {
    Start(f, k) + f.bytesPerRow <= |boot| && BootDirty(boot, Start(f, k), f.bytesPerRow, f.devcfgOffset)
  }

  /** The dirty marks of all blocks. */
  function FlashMarks(f: Family, flash: seq<bv8>, bytes: nat): (marks: seq<bool>)
    requires Known(f)
    ensures |marks| == Blocks(f, bytes)
    ensures forall k: nat :: k < |marks| ==> marks[k] == FlashDirtyAt(f, flash, k)
  {
    seq(Blocks(f, bytes), k requires 0 <= k => FlashDirtyAt(f, flash, k))
  }

  function BootMarks(f: Family, boot: seq<bv8>): (marks: seq<bool>)
    requires Known(f)
    ensures |marks| == Blocks(f, BootBytes(f))
    ensures forall k: nat :: k < |marks| ==> marks[k] == BootDirtyAt(f, boot, k)
  {
    seq(Blocks(f, BootBytes(f)), k requires 0 <= k => BootDirtyAt(f, boot, k))
  }

  lemma FlashMarksAt(f: Family, flash: seq<bv8>, bytes: nat, k: nat)
    requires Known(f) && bytes <= FLASH_BYTES == |flash| && bytes % f.bytesPerRow == 0 && k < Blocks(f, bytes)
    ensures 0 < f.bytesPerRow && Start(f, k) + f.bytesPerRow <= bytes
    ensures FlashMarks(f, flash, bytes)[k] == FlashDirty(flash, Start(f, k), f.bytesPerRow)
  {
    Tiles(f, bytes, k);
  }

  lemma BootMarksAt(f: Family, boot: seq<bv8>, k: nat)
    requires Known(f) && |boot| == BOOT_BYTES && k < Blocks(f, BootBytes(f))
    ensures 0 < f.bytesPerRow && Start(f, k) + f.bytesPerRow <= BootBytes(f) <= BOOT_BYTES
    ensures BootMarks(f, boot)[k] == BootDirty(boot, Start(f, k), f.bytesPerRow, f.devcfgOffset)
  {
    BootTiles(f);
    Tiles(f, BootBytes(f), k);
  }
}
