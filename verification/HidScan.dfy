/** Looking for numbered reports in a report descriptor: a sequence of short items (section
    6.2.2.2 of HID 1.11) and long items (section 6.2.2.3). */
module HidScan {
  import opened Words

  const REPORT_ID: Byte := 0x85
  const LONG_ITEM: Byte := 0xFE

  /** Data length of a short item from its size code. */
  function ShortLength(key: Byte): nat
  {
    if key % 4 == 3 then 4 else key % 4
  }

  predicate LongKey(key: Byte)
  {
    key / 16 == 15
  }

  /** An item as the specification lays it out. */
  datatype Item = Short(prefix: Byte, data: seq<Byte>) | Long(tag: Byte, data: seq<Byte>)

  predicate WellFormed(item: Item)
  {
    match item
    case Short(prefix, data) => !LongKey(prefix) && |data| == ShortLength(prefix)
    case Long(tag, data) => |data| < 0x100
  }

  function Encode(item: Item): (bytes: seq<Byte>)
    requires WellFormed(item)
    ensures bytes != []
  {
    match item
    case Short(prefix, data) => [prefix] + data
    case Long(tag, data) => [LONG_ITEM, |data|, tag] + data
  }

  function Descriptor(items: seq<Item>): seq<Byte>
    requires forall i :: 0 <= i < |items| ==> WellFormed(items[i])
  {
    if items == [] then [] else Encode(items[0]) + Descriptor(items[1..])
  }

  /** A Report ID item with one byte of data. */
  predicate IsReportId(item: Item)
  {
    item.Short? && item.prefix == REPORT_ID
  }

  /** How far the scanner goes from a key at `i`. */
  function Stride(s: seq<Byte>, i: nat): (n: nat)
    requires i < |s|
    ensures n > 0
  {
    if LongKey(s[i]) then (if i + 1 < |s| then s[i + 1] else 0) + 3 else ShortLength(s[i]) + 1
  }

  /** Some key from position `i` on is a Report ID. */
  predicate Finds(s: seq<Byte>, i: nat)
    decreases |s| - i
  {
    i < |s| && (s[i] == REPORT_ID || Finds(s, i + Stride(s, i)))
  }

  method UsesNumberedReports(reportDescriptor: array<Byte>, size: nat) returns (r: int)
    requires size <= reportDescriptor.Length
    ensures r == if Finds(reportDescriptor[..size], 0) then 1 else 0
  {
    ghost var s := reportDescriptor[..size];
    var i: nat := 0;
    while i < size
      invariant Finds(s, 0) == Finds(s, i)
      decreases size - i
    {
      var key := reportDescriptor[i];
      assert key == s[i];
      if key == 0x85 {
        return 1;
      }
      var dataLen: nat, keySize: nat;
      if key / 16 == 15 {
        if i + 1 < size {
          dataLen := reportDescriptor[i + 1];
        } else {
          dataLen := 0;
        }
        keySize := 3;
      } else {
        var sizeCode := key % 4;
        dataLen := if sizeCode == 3 then 4 else sizeCode;
        keySize := 1;
      }
      i := i + dataLen + keySize;
    }
    r := 0;
  }

  /** The scan does not depend on what comes before its position. */
  lemma {:induction false} FindsShift(a: seq<Byte>, s: seq<Byte>, i: nat)
    ensures Finds(a + s, |a| + i) == Finds(s, i)
    decreases |s| - i
  {
    if i < |s| {
      assert (a + s)[|a| + i] == s[i];
      assert i + 1 < |s| ==> (a + s)[|a| + i + 1] == s[i + 1];
      FindsShift(a, s, i + Stride(s, i));
      assert |a| + i + Stride(a + s, |a| + i) == |a| + (i + Stride(s, i));
    }
  }

  lemma ItemStride(item: Item, rest: seq<Byte>)
    requires WellFormed(item)
    ensures Stride(Encode(item) + rest, 0) == |Encode(item)|
    ensures (Encode(item) + rest)[0] == REPORT_ID <==> IsReportId(item)
  {
  }

  /** On a descriptor made of well-formed items the scanner finds a Report ID exactly when
      there is one; data bytes are never taken for a prefix. */
  lemma {:induction false} FindsReportIds(items: seq<Item>)
    requires forall i :: 0 <= i < |items| ==> WellFormed(items[i])
    ensures Finds(Descriptor(items), 0) <==> exists i :: 0 <= i < |items| && IsReportId(items[i])
  {
    if items != [] {
      var rest := Descriptor(items[1..]);
      ItemStride(items[0], rest);
      FindsShift(Encode(items[0]), rest, 0);
      FindsReportIds(items[1..]);
      if i :| 0 <= i < |items| && IsReportId(items[i]) {
        if i > 0 {
          assert IsReportId(items[1..][i - 1]);
        }
      }
      if i :| 0 <= i < |items[1..]| && IsReportId(items[1..][i]) {
        assert IsReportId(items[i + 1]);
      }
    }
  }

  /** Report ID items of any other size go unnoticed. */
  lemma OtherSizesUnnoticed(prefix: Byte, data: seq<Byte>)
    requires prefix / 4 == REPORT_ID / 4 && prefix != REPORT_ID && |data| == ShortLength(prefix)
    ensures WellFormed(Short(prefix, data)) && !Finds(Descriptor([Short(prefix, data)]), 0)
  {
    FindsReportIds([Short(prefix, data)]);
  }

  /** A descriptor cut off inside its last item is scanned as if the item were whole. */
  lemma {:induction false} CutOff(items: seq<Item>, last: Item, n: nat)
    requires (forall i :: 0 <= i < |items| ==> WellFormed(items[i])) && WellFormed(last) && 0 < n <= |Encode(last)|
    ensures Finds(Descriptor(items) + Encode(last)[..n], 0) <==>
              IsReportId(last) || exists i :: 0 <= i < |items| && IsReportId(items[i])
  {
    if items == [] {
      assert Descriptor(items) + Encode(last)[..n] == Encode(last)[..n];
      assert Stride(Encode(last)[..n], 0) >= n;
    } else {
      var tail := Descriptor(items[1..]) + Encode(last)[..n];
      assert Descriptor(items) + Encode(last)[..n] == Encode(items[0]) + tail;
      ItemStride(items[0], tail);
      FindsShift(Encode(items[0]), tail, 0);
      CutOff(items[1..], last, n);
      if i :| 0 <= i < |items| && IsReportId(items[i]) {
        if i > 0 {
          assert IsReportId(items[1..][i - 1]);
        }
      }
      if i :| 0 <= i < |items[1..]| && IsReportId(items[1..][i]) {
        assert IsReportId(items[i + 1]);
      }
    }
  }
}
