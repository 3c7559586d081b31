/** What a file asks for, by addresses alone: the last byte stored for each of them. */
module Delivery {
  import opened Words
  import opened Image
  import opened Session
  import opened Flash
  import Crc

  /** A store is for a physical address if it names it, or the virtual address above it. */
  predicate For(s: Store, x: int)
  {
    s.address == x || s.address == x + 0x8000_0000
  }

  /** The byte of the last store for an address; blank if there is none. */
  predicate LastIs(stores: seq<Store>, x: int, b: bv8)
  {
    || (b == 0xFF && forall i :: 0 <= i < |stores| ==> !For(stores[i], x))
    || exists i :: 0 <= i < |stores| && LastAt(stores, x, i) && stores[i].byte == b
  }

  predicate LastAt(stores: seq<Store>, x: int, i: nat)
    requires i < |stores|
  {
    For(stores[i], x) && forall j :: i < j < |stores| ==> !For(stores[j], x)
  }

  /** Something is for the 80 kbytes of boot memory that an image has. */
  predicate ForBoot(stores: seq<Store>)
  {
    exists i :: 0 <= i < |stores| && InBootWindow(stores[i].address)
  }

  predicate InBootWindow(a: Word)
  {
    0x1FC0_0000 <= a < 0x1FC1_4000 || 0x9FC0_0000 <= a < 0x9FC1_4000
  }

  /** What memory is to have at an address: on MZ parts one bit of boot memory is cleared, as a
      signature. */
  ghost predicate Asked(f: Family, stores: seq<Store>, x: int, b: bv8)
  {
    if f.mz && x == 0x1FC0_FFEF && ForBoot(stores)
    then exists c: bv8 :: LastIs(stores, x, c) && b == WithoutTop(c)
    else LastIs(stores, x, b)
  }

  function WithoutTop(c: bv8): bv8
  {
    if c >= 0x80 then c - 0x80 else c
  }

  /** The addresses that a chip has. */
  predicate OnChip(f: Family, flashBytes: nat, x: int)
  {
    0x1D00_0000 <= x < 0x1D00_0000 + flashBytes || 0x1FC0_0000 <= x < 0x1FC0_0000 + 1024 * f.bootKbytes
  }

  /** Memory has what is asked for at every address of the chip, and everywhere else what it
      had. */
  ghost predicate Delivered(f: Family, flashBytes: nat, stores: seq<Store>, was: Memory, m: Memory)
  {
    forall x: int :: if OnChip(f, flashBytes, x) then Asked(f, stores, x, m(x)) else m(x) == was(x)
  }

  /** Where a family has the configuration word that must not be missing. */
  function Devcfg0Address(f: Family): Word
    requires Known(f)
  {
    if f == MX1 then 0x1FC0_0BFC else if f == MX3 then 0x1FC0_2FFC else if f == MZ then 0x1FC0_FFCC else 0x1FC0_000C
  }

  /** The stores have a configuration word, or nothing for boot memory at all. */
  ghost predicate HasConfig(f: Family, stores: seq<Store>)
    requires Known(f)
  {
    ForBoot(stores) ==> exists x: int :: Within(x, Devcfg0Address(f), 4) && !LastIs(stores, x, 0xFF)
  }

  /** Nothing but the sixteen bytes of the configuration words is to be written. */
  ghost predicate AllBlank(f: Family, flashBytes: nat, stores: seq<Store>)
    requires Known(f)
  {
    forall x: int :: OnChip(f, flashBytes, x) && !Within(x, Devcfg0Address(f) - 12, 16) ==> Asked(f, stores, x, 0xFF)
  }

  /** Where the chip's blocks start. */
  predicate BlockStart(f: Family, flashBytes: nat, x: int)
    requires Known(f)
  {
    && OnChip(f, flashBytes, x)
    && (x - (if x < 0x1FC0_0000 then 0x1D00_0000 else 0x1FC0_0000)) % f.bytesPerRow == 0
  }

  /** The bytes that are asked for in a block. */
  ghost predicate BlockAsked(f: Family, stores: seq<Store>, x: int, data: seq<bv8>)
  {
    |data| == f.bytesPerRow && forall y: int :: Within(y, x, f.bytesPerRow) ==> Asked(f, stores, y, data[y - x])
  }

  /** There is something to write in a block besides configuration words. */
  ghost predicate BlockUsed(f: Family, stores: seq<Store>, x: int)
    requires Known(f)
  {
    exists y: int :: Within(y, x, f.bytesPerRow) && !Within(y, Devcfg0Address(f) - 12, 16) && !Asked(f, stores, y, 0xFF)
  }

  /** The comparison of a block: there is an executive, and it finds the checksum of what is
      asked for. */
  ghost predicate BlockAgrees(f: Family, stores: seq<Store>, m: Memory, x: int)
  {
    && f.peNwords != 0 && 0 <= x < 0x1_0000_0000
    && forall data: seq<bv8> :: BlockAsked(f, stores, x, data) ==>
         Crc.CrcOf(0xFFFF, Range(m, x, f.bytesPerRow)) == Crc.CrcOf(0xFFFF, data)
  }

  /** Every block that has something to write agrees. */
  ghost predicate Agrees(f: Family, flashBytes: nat, stores: seq<Store>, m: Memory)
    requires Known(f)
  {
    forall x: int :: BlockStart(f, flashBytes, x) && BlockUsed(f, stores, x) ==> BlockAgrees(f, stores, m, x)
  }

  // ----- The image by addresses -------------------------------------------------------

  /** The place of an address is its physical address, in either window. */
  lemma PlaceIsAddress(a: Word)
    ensures PlaceOf(a) != Nowhere ==> InArrays(PlaceOf(a)) && PhysicalOf(PlaceOf(a)) == VirtToPhys(a)
  {
  }

  lemma PlaceAt(a: Word, p: Place)
    requires InArrays(p)
    ensures PlaceOf(a) == p <==> a == PhysicalOf(p) || a == PhysicalOf(p) + 0x8000_0000
  {
  }

  /** What the image has at a place is the byte of the last store for its address. */
  lemma {:induction false} HoldsLast(stores: seq<Store>, p: Place)
    requires InArrays(p)
    ensures LastIs(stores, PhysicalOf(p), Holds(stores, p))
    decreases |stores|
  {
    hide PlaceOf, PhysicalOf, InArrays, For;
    if stores != [] {
      var n, x := |stores| - 1, PhysicalOf(p);
      var before := stores[..n];
      PlaceIs(stores[n], p);
      if For(stores[n], x) {
        assert LastAt(stores, x, n);
      } else {
        HoldsLast(before, p);
        assert Holds(stores, p) == Holds(before, p);
        LastEarlier(stores, x, Holds(before, p));
      }
    }
  }

  lemma PlaceIs(s: Store, p: Place)
    requires InArrays(p)
    ensures PlaceOf(s.address) == p <==> For(s, PhysicalOf(p))
  {
    PlaceAt(s.address, p);
  }

  /** A store for another address at the end makes no difference. */
  lemma LastEarlier(stores: seq<Store>, x: int, b: bv8)
    requires stores != [] && !For(stores[|stores| - 1], x) && LastIs(stores[..|stores| - 1], x, b)
    ensures LastIs(stores, x, b)
  {
    hide For;
    var n := |stores| - 1;
    var before := stores[..n];
    if i: nat :| i < |before| && LastAt(before, x, i) && before[i].byte == b {
      forall j | i < j < |stores|
        ensures !For(stores[j], x)
      {
        if j < n {
          assert before[j] == stores[j];
        }
      }
      assert LastAt(stores, x, i);
    } else {
      forall i | 0 <= i < |stores|
        ensures !For(stores[i], x)
      {
        if i < n {
          assert before[i] == stores[i];
        }
      }
    }
  }

  lemma LastUnique(stores: seq<Store>, x: int, b: bv8, c: bv8)
    requires LastIs(stores, x, b) && LastIs(stores, x, c)
    ensures b == c
  {
    hide For;
  }

  lemma AskedUnique(f: Family, stores: seq<Store>, x: int, b: bv8, c: bv8)
    requires Asked(f, stores, x, b) && Asked(f, stores, x, c)
    ensures b == c
  {
    hide LastIs, ForBoot;
    forall d: bv8, e: bv8 | LastIs(stores, x, d) && LastIs(stores, x, e)
      ensures d == e
    {
      LastUnique(stores, x, d, e);
    }
  }

  /** An image that nothing is stored in is blank. */
  lemma UntouchedBlank(stores: seq<Store>, p: Place)
    requires InArrays(p) && (if p.Boot? then !TouchesBoot(stores) else !TouchesFlash(stores))
    ensures Holds(stores, p) == 0xFF
  {
    HoldsLast(stores, p);
    hide Holds;
    forall i | 0 <= i < |stores|
      ensures !For(stores[i], PhysicalOf(p))
    {
      PlaceIs(stores[i], p);
    }
    hide For;
  }

  lemma BootTouched(stores: seq<Store>)
    ensures TouchesBoot(stores) <==> ForBoot(stores)
  {
    forall i | 0 <= i < |stores|
      ensures PlaceOf(stores[i].address).Boot? <==> InBootWindow(stores[i].address)
    {
      BootWindows(stores[i].address);
    }
    hide PlaceOf, InBootWindow;
  }

  lemma BootWindows(a: Word)
    ensures PlaceOf(a).Boot? <==> InBootWindow(a)
  {
  }
}
