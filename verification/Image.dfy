/** The memory image built from an input file: boot and flash bytes, reached through
    virtual and physical addresses. */
module Image {
  import opened Words

  const FLASHV_BASE: Word := 0x9d00_0000
  const BOOTV_BASE: Word := 0x9fc0_0000
  const FLASHP_BASE: Word := 0x1d00_0000
  const BOOTP_BASE: Word := 0x1fc0_0000
  const FLASH_BYTES: nat := 2048 * 1024
  const BOOT_BYTES: nat := 80 * 1024

  /** Where a byte of the image lives. */
  datatype Place = Boot(offset: nat) | Flash(offset: nat) | Nowhere

  function PlaceOf(address: Word): (p: Place)
    ensures p.Boot? ==> p.offset < BOOT_BYTES
    ensures p.Flash? ==> p.offset < FLASH_BYTES
  {
    if Within(address, BOOTV_BASE, BOOT_BYTES) then Boot(address - BOOTV_BASE)
    else if Within(address, BOOTP_BASE, BOOT_BYTES) then Boot(address - BOOTP_BASE)
    else if Within(address, FLASHV_BASE, FLASH_BYTES) then Flash(address - FLASHV_BASE)
    else if Within(address, FLASHP_BASE, FLASH_BYTES) then Flash(address - FLASHP_BASE)
    else Nowhere
  }

  /** A place that some address has. */
  predicate InArrays(p: Place)
  {
    (p.Boot? && p.offset < BOOT_BYTES) || (p.Flash? && p.offset < FLASH_BYTES)
  }

  /** The physical address of a place. */
  function PhysicalOf(p: Place): int
    requires InArrays(p)
  {
    if p.Boot? then BOOTP_BASE + p.offset else FLASHP_BASE + p.offset
  }

  /** A byte of a file and the address it is for. */
  datatype Store = Store(address: Word, byte: bv8)

  /** The last byte stored at a place, if any. */
  function Last(stores: seq<Store>, p: Place): Option<bv8>
  {
    if stores == [] then None
    else
      var s := stores[|stores| - 1];
      if PlaceOf(s.address) == p then Some(s.byte) else Last(stores[..|stores| - 1], p)
  }

  function OrBlank(b: Option<bv8>): bv8
  {
    if b.Some? then b.value else 0xFF
  }

  /** What reading a place gives after a list of stores into a blank image. */
  function Holds(stores: seq<Store>, p: Place): bv8
  {
    OrBlank(Last(stores, p))
  }

  /** Something is stored in boot memory. */
  predicate TouchesBoot(stores: seq<Store>)
  {
    exists i :: 0 <= i < |stores| && PlaceOf(stores[i].address).Boot?
  }

  predicate TouchesFlash(stores: seq<Store>)
  {
    exists i :: 0 <= i < |stores| && PlaceOf(stores[i].address).Flash?
  }

  lemma TouchesMore(stores: seq<Store>, s: Store)
    ensures TouchesBoot(stores + [s]) <==> TouchesBoot(stores) || PlaceOf(s.address).Boot?
    ensures TouchesFlash(stores + [s]) <==> TouchesFlash(stores) || PlaceOf(s.address).Flash?
  {
    var more := stores + [s];
    assert more[|stores|] == s && forall i :: 0 <= i < |stores| ==> more[i] == stores[i];
    if TouchesBoot(stores) {
      var i :| 0 <= i < |stores| && PlaceOf(stores[i].address).Boot?;
      assert PlaceOf(more[i].address).Boot?;
    }
    if TouchesFlash(stores) {
      var i :| 0 <= i < |stores| && PlaceOf(stores[i].address).Flash?;
      assert PlaceOf(more[i].address).Flash?;
    }
  }

  /** The two windows of either array are translations of each other, and nothing else below
      the virtual windows is in either. */
  lemma Aliases(address: Word)
    requires address < 0x8000_0000
    ensures PlaceOf(address + 0x8000_0000) == PlaceOf(address)
    ensures PlaceOf(address) != Nowhere
       <==> Within(address, BOOTP_BASE, BOOT_BYTES) || Within(address, FLASHP_BASE, FLASH_BYTES)
  {
  }

  /** Appending stores: the newer list decides wherever it stores anything. */
  lemma {:induction false} LastConcat(a: seq<Store>, b: seq<Store>, p: Place)
    ensures Last(a + b, p) == if Last(b, p).Some? then Last(b, p) else Last(a, p)
    decreases |b|
  {
    if b == [] {
      assert a + b == a;
    } else {
      assert (a + b)[..|a + b| - 1] == a + b[..|b| - 1];
      LastConcat(a, b[..|b| - 1], p);
    }
  }

  class Image {
    const boot: array<bv8>
    const flash: array<bv8>
    var bootUsed: bool
    var flashUsed: bool

    ghost predicate Valid()
      reads this, boot, flash
    {
      && boot.Length == BOOT_BYTES && flash.Length == FLASH_BYTES && boot != flash
      && (!bootUsed ==> forall i :: 0 <= i < BOOT_BYTES ==> boot[i] == 0xFF)
      && (!flashUsed ==> forall i :: 0 <= i < FLASH_BYTES ==> flash[i] == 0xFF)
    }

    /** The image is the effect of a list of stores on a blank one. */
    ghost predicate Shows(stores: seq<Store>)
      reads this, boot, flash
    {
      && Valid() && bootUsed == TouchesBoot(stores) && flashUsed == TouchesFlash(stores)
      && (forall i: nat :: i < BOOT_BYTES ==> boot[i] == Holds(stores, Boot(i)))
      && (forall i: nat :: i < FLASH_BYTES ==> flash[i] == Holds(stores, Flash(i)))
    }

    /** A blank image. */
    constructor ()
      ensures Shows([]) && !bootUsed && !flashUsed && fresh(boot) && fresh(flash)
    {
      boot := new bv8[BOOT_BYTES](_ => 0xFF);
      flash := new bv8[FLASH_BYTES](_ => 0xFF);
      bootUsed := false;
      flashUsed := false;
    }

    method StoreData(address: Word, byte: bv8, ghost stores: seq<Store>)
      requires Shows(stores)
      modifies this, boot, flash
      ensures Shows(stores + [Store(address, byte)])
    {
      LastSnoc(stores, Store(address, byte));
      TouchesMore(stores, Store(address, byte));
      hide Last, TouchesBoot, TouchesFlash;
      if address >= BOOTV_BASE && address < BOOTV_BASE + BOOT_BYTES {
        var offset := address - BOOTV_BASE;
        boot[offset] := byte;
        bootUsed := true;
      } else if address >= BOOTP_BASE && address < BOOTP_BASE + BOOT_BYTES {
        var offset := address - BOOTP_BASE;
        boot[offset] := byte;
        bootUsed := true;
      } else if address >= FLASHV_BASE && address < FLASHV_BASE + FLASH_BYTES {
        var offset := address - FLASHV_BASE;
        flash[offset] := byte;
        flashUsed := true;
      } else if address >= FLASHP_BASE && address < FLASHP_BASE + FLASH_BYTES {
        var offset := address - FLASHP_BASE;
        flash[offset] := byte;
        flashUsed := true;
      }
    }
  }

  lemma LastSnoc(stores: seq<Store>, s: Store)
    ensures forall p :: Last(stores + [s], p) == if PlaceOf(s.address) == p then Some(s.byte) else Last(stores, p)
  {
    assert (stores + [s])[..|stores|] == stores;
  }
}
