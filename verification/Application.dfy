/** The program's main operation: a file is read and a chip is programmed with it. And the
    families' executives with the other adapter. */
module Application {
  import opened Words
  import opened Image
  import opened Session
  import opened Flash
  import opened Delivery
  import Hex
  import Program
  import Executive
  import ReadBack
  import Tap
  import Firmware
  import Usb
  import Host
  import Mips
  import Loader
  import Installer
  import Pickit

  /** Boot memory after the stores. */
  function BootBytesOf(stores: seq<Store>): (boot: seq<bv8>)
    ensures |boot| == BOOT_BYTES && forall i: nat :: i < BOOT_BYTES ==> boot[i] == Holds(stores, Boot(i))
  {
    seq(BOOT_BYTES, i requires 0 <= i < BOOT_BYTES => Holds(stores, Boot(i)))
  }

  /** The boot memory that a list of stores asks for. */
  function BootImage(f: Family, stores: seq<Store>): (boot: seq<bv8>)
    ensures |boot| == BOOT_BYTES
  {
    if TouchesBoot(stores) then Program.Signed(f, BootBytesOf(stores)) else BootBytesOf(stores)
  }

  /** A boot memory with a cleared signature bit, by address. */
  lemma SignedAt(f: Family, stores: seq<Store>, x: int)
    requires Known(f) && Within(x, BOOTP_BASE, BOOT_BYTES)
    ensures Asked(f, stores, x, BootImage(f, stores)[x - BOOTP_BASE])
  {
    var b := Holds(stores, Boot(x - BOOTP_BASE));
    HoldsLast(stores, Boot(x - BOOTP_BASE));
    BootTouched(stores);
    TopCleared(b);
    assert BootBytesOf(stores)[x - BOOTP_BASE] == b;
    hide Holds, LastIs, ForBoot, TouchesBoot;
  }

  lemma TopCleared(b: bv8)
    ensures b & 0x7f == WithoutTop(b)
  {
  }

  /** The image that the program makes has what the file asks for at every address. */
  lemma ImageAsked(f: Family, stores: seq<Store>, x: int)
    requires Known(f)
    ensures Within(x, FLASHP_BASE, FLASH_BYTES) ==> Asked(f, stores, x, FlashBytesOf(stores)[x - FLASHP_BASE])
    ensures Within(x, BOOTP_BASE, BOOT_BYTES) ==> Asked(f, stores, x, BootImage(f, stores)[x - BOOTP_BASE])
  {
    hide Holds, LastIs, ForBoot, BootImage;
    if Within(x, FLASHP_BASE, FLASH_BYTES) {
      HoldsLast(stores, Flash(x - FLASHP_BASE));
    }
    if Within(x, BOOTP_BASE, BOOT_BYTES) {
      SignedAt(f, stores, x);
    }
  }

  /** One address of a chip that holds the image. */
  ghost predicate HeldAt(f: Family, flashBytes: nat, stores: seq<Store>, was: Memory, m: Memory, x: int)
    requires flashBytes <= FLASH_BYTES && BootBytes(f) <= BOOT_BYTES
  {
    if Within(x, FLASHP_BASE, flashBytes) then m(x) == FlashBytesOf(stores)[x - FLASHP_BASE]
    else if Within(x, BOOTP_BASE, BootBytes(f)) then m(x) == BootImage(f, stores)[x - BOOTP_BASE]
    else m(x) == was(x)
  }

  lemma HeldIsAsked(f: Family, flashBytes: nat, stores: seq<Store>, was: Memory, m: Memory, x: int)
    requires Known(f) && flashBytes <= FLASH_BYTES && BootBytes(f) <= BOOT_BYTES
    ensures HeldAt(f, flashBytes, stores, was, m, x) <==>
            if OnChip(f, flashBytes, x) then Asked(f, stores, x, m(x)) else m(x) == was(x)
  {
    ImageAsked(f, stores, x);
    hide Holds, Asked, BootImage, FlashBytesOf, Known;
    if Asked(f, stores, x, m(x)) {
      if Within(x, FLASHP_BASE, flashBytes) {
        AskedUnique(f, stores, x, m(x), FlashBytesOf(stores)[x - FLASHP_BASE]);
      } else if Within(x, BOOTP_BASE, BootBytes(f)) {
        AskedUnique(f, stores, x, m(x), BootImage(f, stores)[x - BOOTP_BASE]);
      }
    }
  }

  /** A chip that holds the image has what the file asks for, and the other way around. */
  lemma HeldIsDelivered(f: Family, flashBytes: nat, stores: seq<Store>, was: Memory, m: Memory)
    requires Known(f) && flashBytes <= FLASH_BYTES && BootBytes(f) <= BOOT_BYTES
    ensures Program.Holding(f, was, m, FlashBytesOf(stores), flashBytes, BootImage(f, stores)) <==>
            Delivered(f, flashBytes, stores, was, m)
  {
    hide Holds, Asked, BootImage, FlashBytesOf, BootBytes, Known, OnChip;
    forall x: int
      ensures HeldAt(f, flashBytes, stores, was, m, x) <==>
              if OnChip(f, flashBytes, x) then Asked(f, stores, x, m(x)) else m(x) == was(x)
    {
      HeldIsAsked(f, flashBytes, stores, was, m, x);
    }
    HoldingIsAll(f, flashBytes, stores, was, m);
    hide HeldAt, Program.Holding;
  }

  lemma HoldingIsAll(f: Family, flashBytes: nat, stores: seq<Store>, was: Memory, m: Memory)
    requires flashBytes <= FLASH_BYTES && BootBytes(f) <= BOOT_BYTES
    ensures Program.Holding(f, was, m, FlashBytesOf(stores), flashBytes, BootImage(f, stores)) <==>
            forall x: int :: HeldAt(f, flashBytes, stores, was, m, x)
  {
    hide Holds, BootImage, FlashBytesOf, BootBytes;
    if Program.Holding(f, was, m, FlashBytesOf(stores), flashBytes, BootImage(f, stores)) {
      forall x: int
        ensures HeldAt(f, flashBytes, stores, was, m, x)
      {
      }
    }
    if forall x: int :: HeldAt(f, flashBytes, stores, was, m, x) {
      forall x: int
        ensures Within(x, FLASHP_BASE, flashBytes) ==> m(x) == FlashBytesOf(stores)[x - FLASHP_BASE]
        ensures Within(x, BOOTP_BASE, BootBytes(f)) ==> m(x) == BootImage(f, stores)[x - BOOTP_BASE]
        ensures !Within(x, FLASHP_BASE, flashBytes) && !Within(x, BOOTP_BASE, BootBytes(f)) ==> m(x) == was(x)
      {
        assert HeldAt(f, flashBytes, stores, was, m, x);
      }
    }
  }

  /** The configuration word that decides, by address. */
  lemma ConfigByAddress(f: Family, stores: seq<Store>)
    requires Known(f)
    ensures HasConfig(f, stores) <==>
            (TouchesBoot(stores) ==> Program.Devcfg0(f, BootBytesOf(stores)) != 0xFFFF_FFFF)
  {
    hide BytesWord, TouchesBoot, ForBoot, LastIs, BootBytesOf, AllOnes;
    BootTouched(stores);
    WordBlank(f, stores);
    var o := f.devcfgOffset + 12;
    OnesWord(BootBytesOf(stores)[o..o + 4]);
  }

  lemma WordBlank(f: Family, stores: seq<Store>)
    requires Known(f)
    ensures var o := f.devcfgOffset + 12;
            AllOnes(BootBytesOf(stores)[o..o + 4]) <==>
            forall x: int :: Within(x, Devcfg0Address(f), 4) ==> LastIs(stores, x, 0xFF)
  {
    var o := f.devcfgOffset + 12;
    var base := BOOTP_BASE + o;
    var word := BootBytesOf(stores)[o..o + 4];
    assert base == Devcfg0Address(f) && o + 4 <= BOOT_BYTES;
    hide LastIs, BootBytesOf, Devcfg0Address, Known;
    forall x: int | Within(x, base, 4)
      ensures LastIs(stores, x, 0xFF) <==> word[x - base] == 0xFF
    {
      BlankIs(stores, x);
      assert word[x - base] == BootBytesOf(stores)[x - BOOTP_BASE];
    }
    if forall x: int :: Within(x, base, 4) ==> LastIs(stores, x, 0xFF) {
      forall k | 0 <= k < 4
        ensures word[k] == 0xFF
      {
        assert Within(base + k, base, 4);
      }
    }
  }

  lemma BlankIs(stores: seq<Store>, x: int)
    requires Within(x, BOOTP_BASE, BOOT_BYTES)
    ensures LastIs(stores, x, 0xFF) <==> BootBytesOf(stores)[x - BOOTP_BASE] == 0xFF
  {
    hide LastIs, Holds;
    var b := BootBytesOf(stores)[x - BOOTP_BASE];
    HoldsLast(stores, Boot(x - BOOTP_BASE));
    if LastIs(stores, x, 0xFF) {
      LastUnique(stores, x, 0xFF, b);
    }
  }

  /** What there is to write, by address. */
  lemma BlankByAddress(f: Family, flashBytes: nat, stores: seq<Store>)
    requires Known(f) && flashBytes <= FLASH_BYTES && flashBytes % f.bytesPerRow == 0
    ensures NothingToWrite(f, flashBytes, stores) <==> AllBlank(f, flashBytes, stores)
  {
    var flash, boot := FlashBytesOf(stores), BootImage(f, stores);
    Program.BootTiles(f);
    Program.NoFlashDirty(f, flash, flashBytes);
    Program.NoBootDirty(f, boot);
    NothingIsBlank(f, flashBytes, stores);
    assert BOOTP_BASE + f.devcfgOffset == Devcfg0Address(f) - 12;
    hide Program.NoneDirty, Program.FlashMarks, Program.BootMarks, Known, FlashBytesOf, BootImage, Asked,
         Devcfg0Address, TouchesFlash, TouchesBoot;
    forall x: int
      ensures Within(x, FLASHP_BASE, FLASH_BYTES) ==> (Asked(f, stores, x, 0xFF) <==> flash[x - FLASHP_BASE] == 0xFF)
      ensures Within(x, BOOTP_BASE, BOOT_BYTES) ==> (Asked(f, stores, x, 0xFF) <==> boot[x - BOOTP_BASE] == 0xFF)
    {
      AskedBlank(f, stores, x);
    }
    if AllBlank(f, flashBytes, stores) {
      forall i | 0 <= i < flashBytes
        ensures flash[i] == 0xFF
      {
        assert OnChip(f, flashBytes, FLASHP_BASE + i);
      }
      forall i | 0 <= i < BootBytes(f) && !Program.InDevcfg(i, f.devcfgOffset)
        ensures boot[i] == 0xFF
      {
        assert OnChip(f, flashBytes, BOOTP_BASE + i);
      }
    }
  }

  lemma AskedBlank(f: Family, stores: seq<Store>, x: int)
    requires Known(f)
    ensures Within(x, FLASHP_BASE, FLASH_BYTES) ==>
              (Asked(f, stores, x, 0xFF) <==> FlashBytesOf(stores)[x - FLASHP_BASE] == 0xFF)
    ensures Within(x, BOOTP_BASE, BOOT_BYTES) ==>
              (Asked(f, stores, x, 0xFF) <==> BootImage(f, stores)[x - BOOTP_BASE] == 0xFF)
  {
    ImageAsked(f, stores, x);
    hide Known, FlashBytesOf, BootImage, Asked;
    if Asked(f, stores, x, 0xFF) {
      if Within(x, FLASHP_BASE, FLASH_BYTES) {
        AskedUnique(f, stores, x, 0xFF, FlashBytesOf(stores)[x - FLASHP_BASE]);
      }
      if Within(x, BOOTP_BASE, BOOT_BYTES) {
        AskedUnique(f, stores, x, 0xFF, BootImage(f, stores)[x - BOOTP_BASE]);
      }
    }
  }

  /** An image that has nothing for one of the memories is blank there. */
  lemma NothingIsBlank(f: Family, flashBytes: nat, stores: seq<Store>)
    ensures !TouchesFlash(stores) ==> forall i :: 0 <= i < FLASH_BYTES ==> FlashBytesOf(stores)[i] == 0xFF
    ensures !TouchesBoot(stores) ==> forall i :: 0 <= i < BOOT_BYTES ==> BootImage(f, stores)[i] == 0xFF
  {
    hide Holds, TouchesFlash, TouchesBoot;
    forall i: nat | i < FLASH_BYTES && !TouchesFlash(stores)
      ensures FlashBytesOf(stores)[i] == 0xFF
    {
      UntouchedBlank(stores, Flash(i));
    }
    forall i: nat | i < BOOT_BYTES && !TouchesBoot(stores)
      ensures BootImage(f, stores)[i] == 0xFF
    {
      UntouchedBlank(stores, Boot(i));
    }
  }

  /** A block of the image, by address. */
  lemma BlockIs(f: Family, stores: seq<Store>, m: Memory, base: Word, image: seq<bv8>, k: nat)
    requires Known(f) && Program.Start(f, k) + f.bytesPerRow <= |image| && base + |image| <= 0x1_0000_0000
    requires forall x: int :: Within(x, base, |image|) ==> Asked(f, stores, x, image[x - base])
    ensures BlockAgrees(f, stores, m, base + Program.Start(f, k)) <==>
            f.peNwords != 0 && Program.SameBlock(f, m, base, image, k)
  {
    hide Asked, Known, Crc.CrcOf, Range, Program.Start;
    var lo, row := Program.Start(f, k), f.bytesPerRow;
    var data, x := image[lo..lo + row], base + lo;
    forall y: int | Within(y, x, row)
      ensures Asked(f, stores, y, data[y - x])
    {
      assert Within(y, base, |image|) && data[y - x] == image[y - base];
    }
    assert BlockAsked(f, stores, x, data);
    forall other: seq<bv8> | BlockAsked(f, stores, x, other)
      ensures other == data
    {
      OneBlock(f, stores, x, data, other);
    }
  }

  lemma OneBlock(f: Family, stores: seq<Store>, x: int, a: seq<bv8>, b: seq<bv8>)
    requires BlockAsked(f, stores, x, a) && BlockAsked(f, stores, x, b)
    ensures a == b
  {
    hide Asked;
    forall j | 0 <= j < |a|
      ensures a[j] == b[j]
    {
      assert Within(x + j, x, f.bytesPerRow);
      AskedUnique(f, stores, x + j, a[j], b[j]);
    }
  }

  /** A block is marked when it is used. */
  lemma FlashUsed(f: Family, stores: seq<Store>, bytes: nat, k: nat)
    requires Known(f) && bytes <= FLASH_BYTES && bytes % f.bytesPerRow == 0 && k < Program.Blocks(f, bytes)
    ensures Program.FlashMarks(f, FlashBytesOf(stores), bytes)[k] <==>
            BlockUsed(f, stores, FLASHP_BASE + Program.Start(f, k))
  {
    var flash, lo, row := FlashBytesOf(stores), Program.Start(f, k), f.bytesPerRow;
    Program.FlashMarksAt(f, flash, bytes, k);
    assert Devcfg0Address(f) - 12 >= BOOTP_BASE;
    hide Known, FlashBytesOf, Asked, Program.FlashMarks, Program.Start, Program.Blocks, Devcfg0Address;
    forall x: int
      ensures Within(x, FLASHP_BASE, FLASH_BYTES) ==> (Asked(f, stores, x, 0xFF) <==> flash[x - FLASHP_BASE] == 0xFF)
    {
      AskedBlank(f, stores, x);
    }
    if Program.FlashDirty(flash, lo, row) {
      var i :| lo <= i < lo + row && flash[i] != 0xFF;
      assert Within(FLASHP_BASE + i, FLASHP_BASE + lo, row) && !Asked(f, stores, FLASHP_BASE + i, 0xFF);
    }
  }

  lemma BootUsed(f: Family, stores: seq<Store>, k: nat)
    requires Known(f) && k < Program.Blocks(f, BootBytes(f))
    ensures Program.BootMarks(f, BootImage(f, stores))[k] <==> BlockUsed(f, stores, BOOTP_BASE + Program.Start(f, k))
  {
    var boot, lo, row := BootImage(f, stores), Program.Start(f, k), f.bytesPerRow;
    Program.BootMarksAt(f, boot, k);
    assert Devcfg0Address(f) - 12 == BOOTP_BASE + f.devcfgOffset;
    hide Known, BootImage, Asked, Program.BootMarks, Program.Start, Program.Blocks, Devcfg0Address, BootBytes;
    forall x: int
      ensures Within(x, BOOTP_BASE, BOOT_BYTES) ==> (Asked(f, stores, x, 0xFF) <==> boot[x - BOOTP_BASE] == 0xFF)
    {
      AskedBlank(f, stores, x);
    }
    if Program.BootDirty(boot, lo, row, f.devcfgOffset) {
      var i :| lo <= i < lo + row && !Program.InDevcfg(i, f.devcfgOffset) && boot[i] != 0xFF;
      assert Within(BOOTP_BASE + i, BOOTP_BASE + lo, row) && !Asked(f, stores, BOOTP_BASE + i, 0xFF);
    }
  }

  ghost predicate UsedAgrees(f: Family, stores: seq<Store>, m: Memory, x: int)
    requires Known(f)
  {
    BlockUsed(f, stores, x) ==> BlockAgrees(f, stores, m, x)
  }

  lemma FlashAgrees(f: Family, flashBytes: nat, stores: seq<Store>, m: Memory)
    requires Known(f) && flashBytes <= FLASH_BYTES && flashBytes % f.bytesPerRow == 0
    ensures (TouchesFlash(stores) ==>
               Program.Verifies(f, f.peNwords != 0, m, FLASHP_BASE, FlashBytesOf(stores),
                                Program.FlashMarks(f, FlashBytesOf(stores), flashBytes)))
       <==> forall k: nat :: k < Program.Blocks(f, flashBytes) ==>
              UsedAgrees(f, stores, m, FLASHP_BASE + Program.Start(f, k))
  {
    var flash := FlashBytesOf(stores);
    var marks := Program.FlashMarks(f, flash, flashBytes);
    NothingIsBlank(f, flashBytes, stores);
    Program.NoFlashDirty(f, flash, flashBytes);
    forall x: int | Within(x, FLASHP_BASE, |flash|)
      ensures Asked(f, stores, x, flash[x - FLASHP_BASE])
    {
      ImageAsked(f, stores, x);
    }
    hide Known, FlashBytesOf, Program.FlashMarks, BlockUsed, BlockAgrees, TouchesFlash, Program.Start, Program.Blocks,
         Program.SameBlock, Asked;
    forall k: nat | k < |marks|
      ensures UsedAgrees(f, stores, m, FLASHP_BASE + Program.Start(f, k)) <==>
              (marks[k] ==> f.peNwords != 0 && Program.SameBlock(f, m, FLASHP_BASE, flash, k))
    {
      FlashUsed(f, stores, flashBytes, k);
      Program.FlashMarksAt(f, flash, flashBytes, k);
      BlockIs(f, stores, m, FLASHP_BASE, flash, k);
    }
    hide UsedAgrees;
  }

  lemma BootAgrees(f: Family, stores: seq<Store>, m: Memory)
    requires Known(f) && BootBytes(f) <= BOOT_BYTES
    ensures (TouchesBoot(stores) ==>
               Program.Verifies(f, f.peNwords != 0, m, BOOTP_BASE, BootImage(f, stores),
                                Program.BootMarks(f, BootImage(f, stores))))
       <==> forall k: nat :: k < Program.Blocks(f, BootBytes(f)) ==>
              UsedAgrees(f, stores, m, BOOTP_BASE + Program.Start(f, k))
  {
    var boot := BootImage(f, stores);
    var marks := Program.BootMarks(f, boot);
    NothingIsBlank(f, 0, stores);
    Program.NoBootDirty(f, boot);
    forall x: int | Within(x, BOOTP_BASE, |boot|)
      ensures Asked(f, stores, x, boot[x - BOOTP_BASE])
    {
      ImageAsked(f, stores, x);
    }
    hide Known, BootImage, Program.BootMarks, BlockUsed, BlockAgrees, TouchesBoot, Program.Start, Program.Blocks,
         Program.SameBlock, Asked, BootBytes, Program.InDevcfg;
    forall k: nat | k < |marks|
      ensures UsedAgrees(f, stores, m, BOOTP_BASE + Program.Start(f, k)) <==>
              (marks[k] ==> f.peNwords != 0 && Program.SameBlock(f, m, BOOTP_BASE, boot, k))
    {
      BootUsed(f, stores, k);
      Program.BootMarksAt(f, boot, k);
      BlockIs(f, stores, m, BOOTP_BASE, boot, k);
    }
    hide UsedAgrees;
  }

  /** The blocks of flash and boot memory are where blocks start. */
  lemma FlashStart(f: Family, flashBytes: nat, k: nat)
    requires Known(f) && flashBytes % f.bytesPerRow == 0 && k < Program.Blocks(f, flashBytes)
    ensures flashBytes <= FLASH_BYTES ==> BlockStart(f, flashBytes, FLASHP_BASE + Program.Start(f, k))
  {
    Program.Tiles(f, flashBytes, k);
  }

  lemma BootStart(f: Family, flashBytes: nat, k: nat)
    requires Known(f) && k < Program.Blocks(f, BootBytes(f))
    ensures BlockStart(f, flashBytes, BOOTP_BASE + Program.Start(f, k))
  {
    Program.BootTiles(f);
    Program.Tiles(f, BootBytes(f), k);
  }

  /** And no others are. */
  lemma StartOf(f: Family, flashBytes: nat, x: int) returns (k: nat)
    requires Known(f) && flashBytes <= FLASH_BYTES && flashBytes % f.bytesPerRow == 0 && BlockStart(f, flashBytes, x)
    ensures || (k < Program.Blocks(f, flashBytes) && x == FLASHP_BASE + Program.Start(f, k))
            || (k < Program.Blocks(f, BootBytes(f)) && x == BOOTP_BASE + Program.Start(f, k))
  {
    k := (if x < BOOTP_BASE then x - FLASHP_BASE else x - BOOTP_BASE) / f.bytesPerRow;
  }

  /** The comparison of the marked blocks is that of the used ones. */
  lemma AgreesByAddress(f: Family, flashBytes: nat, stores: seq<Store>, m: Memory)
    requires Known(f) && flashBytes <= FLASH_BYTES && flashBytes % f.bytesPerRow == 0
    ensures Compares(f, flashBytes, stores, m) <==> Agrees(f, flashBytes, stores, m)
  {
    Program.BootTiles(f);
    FlashAgrees(f, flashBytes, stores, m);
    BootAgrees(f, stores, m);
    hide FlashBytesOf, BootImage, Program.FlashMarks, Program.BootMarks, BlockUsed, BlockAgrees, TouchesFlash,
         TouchesBoot, Program.Verifies, Known, Program.Start, Program.Blocks, BlockStart, OnChip, BootBytes;
    if Agrees(f, flashBytes, stores, m) {
      forall k: nat | k < Program.Blocks(f, flashBytes)
        ensures UsedAgrees(f, stores, m, FLASHP_BASE + Program.Start(f, k))
      {
        FlashStart(f, flashBytes, k);
      }
      forall k: nat | k < Program.Blocks(f, BootBytes(f))
        ensures UsedAgrees(f, stores, m, BOOTP_BASE + Program.Start(f, k))
      {
        BootStart(f, flashBytes, k);
      }
    }
    if Compares(f, flashBytes, stores, m) {
      forall x: int | BlockStart(f, flashBytes, x)
        ensures UsedAgrees(f, stores, m, x)
      {
        var k := StartOf(f, flashBytes, x);
      }
    }
  }

  /** A memory with what is asked for. */
  lemma DeliveredMemory(f: Family, flashBytes: nat, stores: seq<Store>, was: Memory) returns (m: Memory)
    requires Known(f) && flashBytes <= FLASH_BYTES
    ensures Delivered(f, flashBytes, stores, was, m)
  {
    Program.BootTiles(f);
    hide Holds, BootImage, FlashBytesOf, BootBytes, Delivered;
    var flash, boot := FlashBytesOf(stores), BootImage(f, stores);
    m := (x: int) =>
      if Within(x, FLASHP_BASE, flashBytes) && x - FLASHP_BASE < |flash| then flash[x - FLASHP_BASE]
      else if Within(x, BOOTP_BASE, BootBytes(f)) && x - BOOTP_BASE < |boot| then boot[x - BOOTP_BASE]
      else was(x);
    HeldIsDelivered(f, flashBytes, stores, was, m);
  }

  /** A completed run brings an address what is asked for, whatever memory was before, if and
      only if the chip has it; otherwise it keeps what it was. */
  lemma AddressArrives(f: Family, flashBytes: nat, stores: seq<Store>, x: int)
    requires Known(f) && flashBytes <= FLASH_BYTES
    ensures (forall was: Memory, m: Memory :: Delivered(f, flashBytes, stores, was, m) ==> Asked(f, stores, x, m(x)))
       <==> OnChip(f, flashBytes, x)
    ensures !OnChip(f, flashBytes, x) ==>
              forall was: Memory, m: Memory :: Delivered(f, flashBytes, stores, was, m) ==> m(x) == was(x)
  {
    hide Asked, OnChip, Known;
    if !OnChip(f, flashBytes, x) {
      var was: Memory := y => if Asked(f, stores, x, 0) then 1 else 0;
      var m := DeliveredMemory(f, flashBytes, stores, was);
      if Asked(f, stores, x, m(x)) && Asked(f, stores, x, 0) {
        AskedUnique(f, stores, x, m(x), 0);
      }
    }
  }

  /** Every byte of a file arrives, whatever memory was before, if and only if the chip has
      all its addresses, the high bit aside. The program does not look at that. */
  lemma AllArriveIff(f: Family, flashBytes: nat, stores: seq<Store>)
    requires Known(f) && flashBytes <= FLASH_BYTES
    ensures (forall was: Memory, m: Memory :: Delivered(f, flashBytes, stores, was, m) ==> AllThere(f, stores, m))
       <==> forall i :: 0 <= i < |stores| ==> OnChip(f, flashBytes, stores[i].address % 0x8000_0000)
  {
    hide Asked, OnChip, Known, Delivered;
    forall i | 0 <= i < |stores|
      ensures (forall was: Memory, m: Memory :: Delivered(f, flashBytes, stores, was, m) ==> There(f, stores, m, i))
         <==> OnChip(f, flashBytes, stores[i].address % 0x8000_0000)
    {
      AddressArrives(f, flashBytes, stores, stores[i].address % 0x8000_0000);
    }
    hide There;
  }

  /** Memory has what is asked for at the address of a store. */
  ghost predicate There(f: Family, stores: seq<Store>, m: Memory, i: nat)
    requires i < |stores|
  {
    Asked(f, stores, stores[i].address % 0x8000_0000, m(stores[i].address % 0x8000_0000))
  }

  ghost predicate AllThere(f: Family, stores: seq<Store>, m: Memory)
  {
    forall i :: 0 <= i < |stores| ==> There(f, stores, m, i)
  }

  /** Flash after the stores. */
  function FlashBytesOf(stores: seq<Store>): (flash: seq<bv8>)
    ensures |flash| == FLASH_BYTES && forall i: nat :: i < FLASH_BYTES ==> flash[i] == Holds(stores, Flash(i))
  {
    seq(FLASH_BYTES, i requires 0 <= i < FLASH_BYTES => Holds(stores, Flash(i)))
  }

  /** No block has anything to write. */
  predicate NothingToWrite(f: Family, flashBytes: nat, stores: seq<Store>)
    requires Known(f)
  {
    && (TouchesFlash(stores) ==> Program.NoneDirty(Program.FlashMarks(f, FlashBytesOf(stores), flashBytes)))
    && (TouchesBoot(stores) ==> Program.NoneDirty(Program.BootMarks(f, BootImage(f, stores))))
  }

  /** What a comparison alone finds: the checksums of the blocks that are not blank agree. */
  ghost predicate Compares(f: Family, flashBytes: nat, stores: seq<Store>, m: Memory)
    requires Known(f)
  {
    var exec := f.peNwords != 0;
    && (TouchesFlash(stores) ==>
          Program.Verifies(f, exec, m, FLASHP_BASE, FlashBytesOf(stores),
                           Program.FlashMarks(f, FlashBytesOf(stores), flashBytes)))
    && (TouchesBoot(stores) ==>
          Program.Verifies(f, exec, m, BOOTP_BASE, BootImage(f, stores), Program.BootMarks(f, BootImage(f, stores))))
  }

  /** When a run has success, errors of the executive apart. */
  ghost predicate Succeeds(f: Family, flashBytes: nat, r: Hex.Reading, answer: Word, verifyOnly: bool,
                           skipVerify: bool, was: Memory)
    requires Known(f)
  {
    && r.outcome == Hex.Done && HasConfig(f, r.stores) && Program.Loads(f, answer)
    && if verifyOnly then skipVerify || Agrees(f, flashBytes, r.stores, was)
       else f != BOOTLOADER ||
            (AllBlank(f, flashBytes, r.stores) && (skipVerify || !ForBoot(r.stores)))
  }

  /** Read a file and program a chip with it, or compare them. `junk` is what the readers'
      buffer contains at first. */
  method ProgramFile(text: seq<Byte>, junk: seq<Byte>, chip: TargetChip, pe: seq<Word>, answer: Word,
                     verifyOnly: bool, skipVerify: bool)
    returns (outcome: Outcome)
    requires |junk| == Hex.BUFFER && chip.Ready() && !chip.Exec() && chip.family.peNwords <= |pe|
    requires chip.flashBytes <= FLASH_BYTES && chip.flashBytes % chip.family.bytesPerRow == 0
    modifies chip.Repr()
    ensures chip.Ready() && outcome != NullCall
    ensures var r, f := Hex.FileRun(text, junk), chip.family;
            && Honest(outcome == Done,
                      Succeeds(f, chip.flashBytes, r, answer, verifyOnly, skipVerify, old(chip.Memory())), chip.Sound())
            && (verifyOnly ==> chip.Memory() == old(chip.Memory()))
            && (!verifyOnly && outcome == Done ==>
                  chip.session.once &&
                  (Delivered(f, chip.flashBytes, r.stores, old(chip.Memory()), chip.Memory())
                   <==> f != BOOTLOADER || !ForBoot(r.stores)))
  {
    hide TargetChip.Ready, Session.Ready, Hex.FileRun, Holds, Program.Signed, Program.Devcfg0, Program.Loads,
         TouchesBoot, TouchesFlash, Program.NoneDirty, Program.FlashMarks, Program.BootMarks, Program.Holding,
         Delivered, Program.FinalBoot, Program.Verifies, HasConfig, ForBoot, AllBlank, Agrees;
    var image := new Image();
    var reader := new Hex.Reader(image);
    var ok, o := reader.ReadFile(text, junk);
    if !ok {
      return Failed;
    }
    ghost var stores := Hex.FileRun(text, junk).stores;
    var programmer := new Program.Programmer(image, chip);
    assert image.boot[..] == BootBytesOf(stores) && image.flash[..] == FlashBytesOf(stores);
    ghost var was := chip.Memory();
    outcome := programmer.DoProgram(pe, answer, verifyOnly, skipVerify);
    assert image.flash[..] == FlashBytesOf(stores);
    ConfigByAddress(chip.family, stores);
    BlankByAddress(chip.family, chip.flashBytes, stores);
    AgreesByAddress(chip.family, chip.flashBytes, stores, was);
    BootTouched(stores);
    assert HasConfig(chip.family, stores) ==> image.boot[..] == BootImage(chip.family, stores);
    HeldIsDelivered(chip.family, chip.flashBytes, stores, was, chip.Memory());
  }

  /** Bytes from a base address on are within the chip's flash or boot memory. */
  predicate WithinChip(f: Family, flashBytes: nat, base: Word, n: nat)
  {
    || (base % 0x8000_0000 == 0x1D00_0000 && n <= flashBytes)
    || (base % 0x8000_0000 == 0x1FC0_0000 && n <= 1024 * f.bootKbytes)
  }

  /** Program a file and read memory into another one: what comes out is what the first file
      asks for, through either window, as far as the chip has it. */
  method ProgramAndRead(text: seq<Byte>, junk: seq<Byte>, chip: TargetChip, pe: seq<Word>, answer: Word,
                        skipVerify: bool, base: Word, nbytes: Word)
    returns (outcome: Outcome, read: bool, file: seq<bv8>)
    requires |junk| == Hex.BUFFER && chip.Ready() && !chip.Exec() && 0 < chip.family.peNwords <= |pe|
    requires chip.flashBytes <= FLASH_BYTES && chip.flashBytes % chip.family.bytesPerRow == 0
    requires nbytes <= 0xFFFF_FC00
    modifies chip.Repr()
    ensures chip.Ready()
    ensures var r, f := Hex.FileRun(text, junk), chip.family;
            && Honest(outcome == Done, r.outcome == Hex.Done && HasConfig(f, r.stores) && Program.Loads(f, answer),
                      chip.Sound())
            && (outcome == Done && chip.Sound() ==> read)
            && (read ==> outcome == Done && |file| % 1024 == 0 && nbytes <= |file| < nbytes + 1024)
            && (read && WithinChip(f, chip.flashBytes, base, |file|) ==>
                  forall j: nat :: j < |file| ==> Asked(f, r.stores, base % 0x8000_0000 + j, file[j]))
  {
    hide Session.Ready, Hex.FileRun, Holds, HasConfig, TouchesBoot, ForBoot, Delivered, BootImage, FlashBytesOf,
         BootBytes, ReadBack.Blocks, Program.Holding, Agrees, AllBlank, Asked, WithinChip;
    ghost var was := chip.Memory();
    outcome := ProgramFile(text, junk, chip, pe, answer, false, skipVerify);
    read, file := false, [];
    if outcome == Done {
      ghost var stores := Hex.FileRun(text, junk).stores;
      ghost var m := chip.Memory();
      read, file := ReadBack.DoRead(chip, pe, answer, base, nbytes);
      WholeBlocks(nbytes);
      if read && WithinChip(chip.family, chip.flashBytes, base, |file|) {
        ReadsWhatWasAsked(chip.family, chip.flashBytes, stores, was, m, base, ReadBack.Count(nbytes));
      }
    }
  }

  lemma WholeBlocks(nbytes: nat)
    ensures var n := ReadBack.BLOCK * ReadBack.Count(nbytes); n % 1024 == 0 && nbytes <= n < nbytes + 1024
  {
  }

  lemma ReadsWhatWasAsked(f: Family, flashBytes: nat, stores: seq<Store>, was: Memory, m: Memory, base: Word, k: nat)
    requires Known(f) && flashBytes <= FLASH_BYTES && Delivered(f, flashBytes, stores, was, m)
    requires WithinChip(f, flashBytes, base, ReadBack.BLOCK * k)
    ensures forall j: nat :: j < ReadBack.BLOCK * k ==>
              Asked(f, stores, base % 0x8000_0000 + j, ReadBack.Blocks(m, base, k)[j])
  {
    hide Delivered, Program.Holding, ReadBack.Blocks, BootImage, FlashBytesOf, Asked, Known;
    Program.BootTiles(f);
    HeldIsDelivered(f, flashBytes, stores, was, m);
    var flash, boot := FlashBytesOf(stores), BootImage(f, stores);
    ReadBack.ReadsWhatWasWritten(f, was, m, flash, flashBytes, boot, k);
    forall j: nat | j < ReadBack.BLOCK * k
      ensures Asked(f, stores, base % 0x8000_0000 + j, ReadBack.Blocks(m, base, k)[j])
    {
      ImageAsked(f, stores, base % 0x8000_0000 + j);
    }
  }

  /** What a completed run leaves passes the comparison. */
  lemma DeliveredAgrees(f: Family, flashBytes: nat, stores: seq<Store>, was: Memory, m: Memory)
    requires Known(f) && f.peNwords != 0 && flashBytes <= FLASH_BYTES && flashBytes % f.bytesPerRow == 0
    requires Delivered(f, flashBytes, stores, was, m)
    ensures Agrees(f, flashBytes, stores, m)
  {
    AgreesByAddress(f, flashBytes, stores, m);
    hide Agrees, Delivered, Program.Holding, BootImage, FlashBytesOf, Program.FlashMarks, Program.Verifies,
         Program.Blocks;
    Program.BootTiles(f);
    HeldIsDelivered(f, flashBytes, stores, was, m);
    var boot := BootImage(f, stores);
    Program.HeldPasses(f, was, m, FlashBytesOf(stores), flashBytes, boot, Program.BootMarks(f, boot));
  }

  /** A chip behind the adapter: all the objects from the pins to the chip. `dev` is the
      target's TAP at first. */
  method Connect(wireMode: Byte, dev: Tap.Device, sound: bool, memory: Memory, family: Family, flashBytes: nat)
    returns (chip: TargetChip)
    requires (wireMode == Firmware.WIRES_JTAG || wireMode == Firmware.WIRES_ICSP) && Tap.Valid(dev) && Known(family)
    requires dev.st.RunTestIdle? && dev.regs.ready && dev.regs.out == [] && dev.regs.fifo == []
    ensures chip.Ready() && !chip.Exec() && chip.Sound() == sound && chip.Memory() == memory
    ensures chip.family == family && chip.flashBytes == flashBytes && fresh(chip.Repr())
  {
    hide Tap.Valid;
    var port := new Firmware.Port(wireMode, dev);
    var adapter := new Usb.Adapter(port);
    var usb := new Host.UsbPic(adapter);
    var session := new Session(usb, sound, memory);
    chip := new TargetChip(session, family, flashBytes);
  }

  /** Every executive has an even number of words and enough zeros after them for the PICkit's
      last group, so the PICkit starts every one of them. `length` is that of the array. */
  lemma EveryFamilyStarts(f: Family, length: nat, s: Mips.Cpu, pe: seq<Word>)
    requires (f == MX1 && length == 432) || (f == MX3 && length == 1054) || (f == MZ && length == 1061)
    requires |pe| == length && forall i :: f.peNwords <= i < length ==> pe[i] == 0
    requires Installer.Served(s, 100) && Installer.BMXDMSZ in s.mem && s.probe == Installer.Install(false)
    requires Pickit.Padded(f.peNwords) <= |pe| ==> s.fifo == Pickit.PickitDownload(pe, f.peNwords)
    ensures Pickit.ZeroPadded(pe, f.peNwords)
    ensures exists k: nat :: Mips.Run(s, k).pc == Loader.PE_BASE
  {
    hide Installer.Install, Mips.Run, Pickit.PickitDownload;
    assert Pickit.Padded(422) == 430 && Pickit.Padded(1044) == 1050 && Pickit.Padded(1052) == 1060;
    Pickit.StartsIffEven(s, pe, f.peNwords);
  }
}
