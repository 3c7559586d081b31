/** The adapter's firmware: clocking bits over four wires or over the multiplexed
    two-wire link, and the JTAG pseudo operations built on that. */
module Firmware {
  import opened Words
  import opened Bits
  import opened Tap
  import opened TapRuns
  import opened Ejtag

  const WIRES_ICSP: Byte := 1
  const WIRES_JTAG: Byte := 2

  function Level(b: bool): Byte
  {
    if b then 1 else 0
  }

  /** The first `n` bits of a byte buffer, least significant bit of each byte first. */
  function BufferBits(buffer: seq<Byte>, off: nat, n: nat): (bits: seq<bool>)
    requires off + (n + 7) / 8 <= |buffer|
    ensures |bits| == n
  {
    seq(n, i requires 0 <= i < n => Bit(buffer[off + i / 8], i % 8))
  }

  /** The bits of byte `k`; the last byte may be incomplete. */
  function Chunk(bits: seq<bool>, k: nat): (chunk: seq<bool>)
    requires 8 * k <= |bits|
    ensures |chunk| <= 8
  {
    bits[8 * k..if 8 * k + 8 <= |bits| then 8 * k + 8 else |bits|]
  }

  function PackedByte(bits: seq<bool>, k: nat): (b: Byte)
    requires 8 * k <= |bits|
  {
    PackedChunk(Chunk(bits, k));
    FromBits(Chunk(bits, k))
  }

  lemma ChunkAppends(bits: seq<bool>, b: bool, k: nat)
    requires 8 * k <= |bits| + 1
    ensures 8 * k + 8 <= |bits| ==> Chunk(bits + [b], k) == Chunk(bits, k)
    ensures 8 * k <= |bits| < 8 * k + 8 ==> Chunk(bits + [b], k) == Chunk(bits, k) + [b]
    ensures 8 * k == |bits| + 1 ==> Chunk(bits + [b], k) == []
  {
    if 8 * k + 8 <= |bits| {
      assert (bits + [b])[8 * k..8 * k + 8] == bits[8 * k..8 * k + 8];
    } else if 8 * k <= |bits| {
      assert (bits + [b])[8 * k..] == bits[8 * k..] + [b];
    }
  }

  lemma PackedChunk(chunk: seq<bool>)
    requires |chunk| <= 8
    ensures FromBits(chunk) < 0x100
  {
    Pow2Values();
    Pow2Grows(|chunk|, 8);
  }

  function PaddedByte(bits: seq<bool>, k: nat): Byte
  {
    if 8 * k <= |bits| then PackedByte(bits, k) else 0
  }

  /** `size` bytes from `off` hold the bits, padded with zeros, OR-ed onto `base`. */
  ghost predicate Filled(base: seq<Byte>, buffer: seq<Byte>, off: nat, bits: seq<bool>, size: nat)
    requires off + size <= |buffer| == |base|
  {
    forall k: nat :: k < size ==> buffer[off + k] == Or(base[off + k], PaddedByte(bits, k))
  }

  /** OR-ing a bit into the first free position appends it. */
  lemma FilledAppends(base: seq<Byte>, buffer: seq<Byte>, off: nat, bits: seq<bool>, size: nat, b: bool)
    requires off + size <= |buffer| == |base| && |bits| < 8 * size && Filled(base, buffer, off, bits, size)
    ensures var q := off + |bits| / 8;
            var v := Or(buffer[q], Level(b) * Pow2(|bits| % 8));
            v < 0x100 && Filled(base, buffer[q := v], off, bits + [b], size)
  {
    hide FromBits, Pow2, Or, Chunk;
    var k := |bits| / 8;
    var chunk := Chunk(bits, k);
    ChunkAppends(bits, b, k);
    ChunkLength(bits, k);
    var after := bits + [b];
    AppendsToByte(base[off + k], chunk, b);
    assert buffer[off + k] == Or(base[off + k], PaddedByte(bits, k));
    var v := Or(buffer[off + k], Level(b) * Pow2(|bits| % 8));
    assert v == Or(base[off + k], PaddedByte(after, k));
    forall j: nat | j < size
      ensures buffer[off + k := v][off + j] == Or(base[off + j], PaddedByte(after, j))
    {
      assert buffer[off + j] == Or(base[off + j], PaddedByte(bits, j));
      if 8 * j <= |after| {
        ChunkAppends(bits, b, j);
        NoBits();
      }
    }
  }

  lemma AppendsToByte(base: Byte, chunk: seq<bool>, b: bool)
    requires |chunk| < 8
    ensures Or(Or(base, FromBits(chunk)), Level(b) * Pow2(|chunk|)) == Or(base, FromBits(chunk + [b])) < 0x100
  {
    hide FromBits, Pow2, Or;
    OrAppends(chunk, b);
    OrAssociates(base, FromBits(chunk), Level(b) * Pow2(|chunk|));
    PackedChunk(chunk + [b]);
    Pow2Values();
    OrBounded(base, FromBits(chunk + [b]), 8);
  }

  lemma ChunkLength(bits: seq<bool>, k: nat)
    requires k == |bits| / 8
    ensures |Chunk(bits, k)| == |bits| % 8
  {
  }

  /** Two buffers agree outside a range. */
  ghost predicate SameOutside(a: seq<Byte>, b: seq<Byte>, from: nat, to: nat)
  {
    |a| == |b| && forall i :: 0 <= i < |a| && !(from <= i < to) ==> a[i] == b[i]
  }

  /** How many clocks later than over four wires TDO is sampled: a bit appears on TDO one
      clock before the clock that shifts it out. */
  function SampleDelay(wireMode: Byte): nat
  {
    if wireMode == WIRES_ICSP then 1 else 0
  }

  /** `b` is TDO after the first `k` of these clocks, if it was driven then. */
  ghost predicate Sampled(start: Device, pairs: seq<Pair>, k: nat, b: bool)
    requires Tap.Valid(start)
  {
    k <= |pairs| && (var e := Clocks(start, pairs[..k]); e.driven ==> b == e.tdo)
  }

  /** Bit `k` was sampled from TDO `delay` clocks after the first `k`. */
  ghost predicate SampledAll(start: Device, pairs: seq<Pair>, delay: nat, bits: seq<bool>)
    requires Tap.Valid(start)
  {
    forall k: nat :: k < |bits| ==> Sampled(start, pairs, k + delay, bits[k])
  }

  /** How often byte `k` has been shifted when `i` bits are out. */
  function ShiftsDone(i: nat, k: nat): nat
  {
    if i <= 8 * k then 0 else if i < 8 * k + 8 then i - 8 * k else 8
  }

  /** Sending the bits shifts them out of the buffer. */
  ghost predicate Consumed(before: seq<Byte>, now: seq<Byte>, off: nat, i: nat)
  {
    |now| == |before|
    && forall j :: 0 <= j < |before| ==>
         now[j] == if j < off then before[j] else Shr(before[j], ShiftsDone(i, j - off))
  }

  lemma ConsumedStart(before: seq<Byte>, off: nat)
    ensures Consumed(before, before, off, 0)
  {
  }

  lemma ConsumedHead(before: seq<Byte>, now: seq<Byte>, off: nat, i: nat)
    requires off + i / 8 < |before| && Consumed(before, now, off, i)
    ensures (now[off + i / 8] % 2 == 1) == Bit(before[off + i / 8], i % 8)
  {
    ShrStep(before[off + i / 8], i % 8);
  }

  lemma ConsumedStep(before: seq<Byte>, now: seq<Byte>, off: nat, i: nat)
    requires off + i / 8 < |before| && Consumed(before, now, off, i)
    ensures Consumed(before, now[off + i / 8 := now[off + i / 8] / 2], off, i + 1)
  {
    hide Shr;
    ShrStep(before[off + i / 8], i % 8);
  }

  lemma ConsumedKeepsHead(before: seq<Byte>, now: seq<Byte>, off: nat, i: nat)
    requires Consumed(before, now, off, i)
    ensures |now| == |before| && forall j :: 0 <= j < off && j < |now| ==> now[j] == before[j]
  {
  }

  lemma ConsumedDone(before: seq<Byte>, now: seq<Byte>, off: nat, i: nat)
    requires off + (i + 7) / 8 <= |before| && Consumed(before, now, off, i)
    ensures SameOutside(before, now, off, off + (i + 7) / 8)
    ensures forall k :: off <= k < off + i / 8 ==> now[k] == 0
  {
    Pow2Values();
    forall j | 0 <= j < |before| && off + (i + 7) / 8 <= j
      ensures now[j] == before[j]
    {
      assert ShiftsDone(i, j - off) == 0;
      assert Shr(before[j], 0) == before[j];
    }
    forall j | off <= j < off + i / 8
      ensures now[j] == 0
    {
      ShrToZero(before[j], 8);
    }
  }

  /** What the response is OR-ed onto: over two wires the first byte is assigned. */
  function ResponseBase(response: seq<Byte>, rOff: nat, wireMode: Byte): seq<Byte>
    requires wireMode == WIRES_ICSP ==> rOff < |response|
  {
    if wireMode == WIRES_ICSP then response[rOff := 0] else response
  }

  lemma FilledStart(response: seq<Byte>, rOff: nat, first: seq<bool>, size: nat)
    requires |first| <= 1 && |first| <= size && rOff + size <= |response|
    ensures var now := if first == [] then response else response[rOff := Level(first[0])];
            var base := if first == [] then response else response[rOff := 0];
            Filled(base, now, rOff, first, size)
  {
    NoBits();
    if first != [] {
      assert first == [first[0]];
      assert FromBits([first[0]]) == Level(first[0]);
    }
  }

  lemma BaseSameOutside(response: seq<Byte>, rOff: nat, wireMode: Byte, now: seq<Byte>, size: nat)
    requires SampleDelay(wireMode) <= size && rOff + size <= |response|
    requires SameOutside(ResponseBase(response, rOff, wireMode), now, rOff, rOff + size)
    ensures SameOutside(response, now, rOff, rOff + size)
  {
  }

  /** Bytes of the response: over two wires, room for the extra bit. */
  function ResponseSize(nBits: nat, wireMode: Byte): nat
  {
    (nBits + SampleDelay(wireMode) + 7) / 8
  }

  /** A sample taken while shifting, counted from the start of the access. */
  lemma SampledFromStart(start: Device, head: seq<Pair>, pairs: seq<Pair>, tail: seq<Pair>, k: nat, b: bool)
    requires Tap.Valid(start) && Sampled(Clocks(start, head), pairs, k, b)
    ensures Sampled(start, head + pairs + tail, |head| + k, b)
  {
    hide Clock, Tap.Valid;
    assert (head + pairs + tail)[..|head| + k] == head + pairs[..k];
    ClocksConcat(start, head, pairs[..k]);
  }

  lemma AllSampled(start: Device, bits: seq<bool>, first: seq<bool>, rest: seq<bool>)
    requires Tap.Valid(start) && |first| <= 1 && |rest| == |bits|
    requires var d := Clocks(start, TO_SHIFT_DR);
             && (first != [] && d.driven ==> first[0] == d.tdo)
             && SampledAll(d, ShiftPairs(bits), |first|, rest)
    ensures SampledAll(start, DataPairs(bits), 3, (first + rest)[..|bits|])
  {
    hide Clock, Clocks, Tap.Valid, Sampled;
    var d := Clocks(start, TO_SHIFT_DR);
    forall k: nat | k < |bits|
      ensures Sampled(start, DataPairs(bits), k + 3, (first + rest)[..|bits|][k])
    {
      if k < |first| {
        assert Sampled(d, ShiftPairs(bits), 0, first[0]) by { NothingClocked(d, ShiftPairs(bits), first[0]); }
        SampledFromStart(start, TO_SHIFT_DR, ShiftPairs(bits), TO_IDLE, 0, first[0]);
      } else {
        assert Sampled(d, ShiftPairs(bits), (k - |first|) + |first|, rest[k - |first|]);
        SampledFromStart(start, TO_SHIFT_DR, ShiftPairs(bits), TO_IDLE, k, rest[k - |first|]);
      }
    }
  }

  lemma NothingClocked(d: Device, pairs: seq<Pair>, b: bool)
    requires Tap.Valid(d) && (d.driven ==> b == d.tdo)
    ensures Sampled(d, pairs, 0, b)
  {
  }

  lemma FastPairs(word: seq<bool>)
    requires word != []
    ensures ShiftPairs([false] + word) == [Pair(false, false)] + ShiftPairs(word)
  {
  }

  lemma HeaderSampled(start: Device, bits: seq<bool>, b: bool)
    requires Tap.Valid(start)
    requires Clocks(start, TO_SHIFT_DR).driven ==> b == Clocks(start, TO_SHIFT_DR).tdo
    ensures Sampled(start, DataPairs(bits), 3, b)
  {
    hide Clock, Clocks, Tap.Valid;
    NothingClocked(Clocks(start, TO_SHIFT_DR), ShiftPairs(bits), b);
    SampledFromStart(start, TO_SHIFT_DR, ShiftPairs(bits), TO_IDLE, 0, b);
  }

  lemma FastBitSampled(start: Device, word: seq<bool>, k: nat, b: bool)
    requires Tap.Valid(start) && word != []
    requires Sampled(Clocks(start, TO_SHIFT_DR + [Pair(false, false)]), ShiftPairs(word), k, b)
    ensures Sampled(start, DataPairs([false] + word), 4 + k, b)
  {
    hide Clock, Clocks, Tap.Valid, Sampled;
    FastPairs(word);
    var head := TO_SHIFT_DR + [Pair(false, false)];
    assert DataPairs([false] + word) == head + ShiftPairs(word) + TO_IDLE;
    SampledFromStart(start, head, ShiftPairs(word), TO_IDLE, k, b);
  }

  lemma FastBitsSampled(start: Device, word: seq<bool>, delay: nat, rest: seq<bool>)
    requires Tap.Valid(start) && delay <= 1 && |rest| == |word| == 32
    requires SampledAll(Clocks(start, TO_SHIFT_DR + [Pair(false, false)]), ShiftPairs(word), delay, rest)
    ensures SampledAll(start, DataPairs([false] + word), 4 + delay, rest[..32 - delay])
  {
    hide Clock, Clocks, Tap.Valid, Sampled, ShiftPairs, DataPairs;
    var some := rest[..32 - delay];
    forall k: nat | k < |some|
      ensures Sampled(start, DataPairs([false] + word), k + (4 + delay), some[k])
    {
      assert Sampled(Clocks(start, TO_SHIFT_DR + [Pair(false, false)]), ShiftPairs(word), k + delay, rest[k]);
      FastBitSampled(start, word, k + delay, rest[k]);
    }
  }

  function WordBytes(w: Word): (bytes: seq<Byte>)
    ensures |bytes| == 4
  {
    [ByteOf(w, 0), ByteOf(w, 1), ByteOf(w, 2), ByteOf(w, 3)]
  }

  lemma WordBufferBit(w: Word, buffer: seq<Byte>, off: nat, i: nat)
    requires off + 4 <= |buffer| && buffer[off..off + 4] == WordBytes(w) && i < 32
    ensures Bit(buffer[off + i / 8], i % 8) == ToBits(w, 32)[i]
  {
    hide ByteOf, Bit, ToBits;
    ToBitsAt(w, 32, i);
    BitOfWord(w, i);
    assert buffer[off + i / 8] == buffer[off..off + 4][i / 8] == WordBytes(w)[i / 8] == ByteOf(w, i / 8);
  }

  /** A 32-bit variable in memory is sent least significant bit first. */
  lemma WordBufferBits(w: Word, buffer: seq<Byte>, off: nat)
    requires off + 4 <= |buffer| && buffer[off..off + 4] == WordBytes(w)
    ensures BufferBits(buffer, off, 32) == ToBits(w, 32)
  {
    hide WordBytes, Bit, ToBits;
    forall i: nat | i < 32
      ensures BufferBits(buffer, off, 32)[i] == ToBits(w, 32)[i]
    {
      WordBufferBit(w, buffer, off, i);
    }
  }

  lemma WordFromBits(w: Word)
    ensures FromBits(ToBits(w, 32)) == w
  {
    Pow2Values();
    RoundTrip(w, 32);
  }

  /** The word in a buffer, shifted into the FASTDATA register. */
  lemma FastWritten(r: Registers, sent: seq<Byte>, dOff: nat)
    requires r.ir == ToBits(ETAP_FASTDATA, 5) && dOff + 4 <= |sent|
    ensures |Capture(r)| == 33
    ensures forall w: Word :: sent[dOff..dOff + 4] == WordBytes(w) ==>
              Update(r, [false] + BufferBits(sent, dOff, 32)) == FastTransfer(r, w)
  {
    hide Capture, Update, ToBits, BufferBits, FastTransfer;
    AccessFastDataLength(r);
    forall w: Word | sent[dOff..dOff + 4] == WordBytes(w)
      ensures Update(r, [false] + BufferBits(sent, dOff, 32)) == FastTransfer(r, w)
    {
      WordBufferBits(w, sent, dOff);
      AccessFastData(r, w);
      assert Select(r, ETAP_FASTDATA) == r;
    }
  }

  /** The word that the data register shows. */
  function Shown(r: Registers): Word
  {
    if r.out != [] then r.out[0] else WordOf(r.data)
  }

  lemma ShownCaptured(r: Registers)
    ensures |Capture(Select(r, ETAP_DATA))| == 32
    ensures FromBits(Capture(Select(r, ETAP_DATA))) == Shown(r)
  {
    SelectCode(r, ETAP_DATA);
    if r.out != [] {
      WordFromBits(r.out[0]);
    }
  }

  lemma LateProbe(r: Registers)
    ensures !Late(r).probeOn && !Missed(r).probeOn
  {
  }

  /** The word that four bytes of the response make. */
  lemma ReadsWord(base: seq<Byte>, buffer: seq<Byte>, off: nat, got: seq<bool>, size: nat)
    requires off + size <= |buffer| == |base| && size >= 4 && |got| >= 32
    requires Filled(base, buffer, off, got, size)
    requires forall k :: off <= k < off + 4 ==> base[k] == 0
    ensures FromBits(got[..32]) < 0x1_0000_0000
    ensures LittleEndian(buffer[off], buffer[off + 1], buffer[off + 2], buffer[off + 3]) == FromBits(got[..32])
  {
    hide FromBits, LittleEndian;
    var bits := got[..32];
    PackedWord(bits);
    assert bits[..8] == Chunk(got, 0) && bits[8..16] == Chunk(got, 1);
    assert bits[16..24] == Chunk(got, 2) && bits[24..] == Chunk(got, 3);
    assert buffer[off + 0] == Or(base[off + 0], PaddedByte(got, 0));
    assert buffer[off + 1] == Or(base[off + 1], PaddedByte(got, 1));
    assert buffer[off + 2] == Or(base[off + 2], PaddedByte(got, 2));
    assert buffer[off + 3] == Or(base[off + 3], PaddedByte(got, 3));
  }

  /** The word that a FASTDATA exchange returns. */
  function FastReply(r: Registers, wireMode: Byte): Word
  {
    var w: int := if r.out == [] then 0 else r.out[0];
    if wireMode == WIRES_ICSP then w - w % 2 + Level(r.ready) else w
  }

  lemma AccessFastDataLength(r: Registers)
    requires r.ir == ToBits(ETAP_FASTDATA, 5)
    ensures Capture(r) == [r.ready] + ToBits(if r.out == [] then 0 else r.out[0], 32)
  {
    assert Select(r, ETAP_FASTDATA) == r;
    AccessFastData(r, 0);
  }

  lemma ReplaceLowBit(w: Word, b: bool)
    ensures FromBits([b] + ToBits(w, 32)[1..]) == w - w % 2 + Level(b)
  {
    WordFromBits(w);
    assert ([b] + ToBits(w, 32)[1..])[1..] == ToBits(w, 32)[1..];
  }

  /** What a FASTDATA access leaves in the device and in the bits it reads. */
  lemma FastReadsBack(start: Device, bits: seq<bool>, wireMode: Byte, got: seq<bool>)
    requires Tap.Valid(start) && start.st.RunTestIdle? && start.regs.ir == ToBits(ETAP_FASTDATA, 5)
    requires |bits| == 33 && |got| == 32 + SampleDelay(wireMode)
    requires SampledAll(start, DataPairs(bits), 4 + SampleDelay(wireMode), got[SampleDelay(wireMode)..32])
    requires wireMode == WIRES_ICSP ==> Sampled(start, DataPairs(bits), 3, got[0])
    ensures |Capture(start.regs)| == 33
    ensures Clocks(start, DataPairs(bits)).st.RunTestIdle?
    ensures Clocks(start, DataPairs(bits)).regs == Update(start.regs, bits)
    ensures FromBits(got[..32]) == FastReply(start.regs, wireMode)
  {
    hide Clock, Clocks, Tap.Valid, Capture, Update, ToBits, FromBits, DataPairs, FastReply, Sampled, SampledAll;
    AccessFastDataLength(start.regs);
    if wireMode == WIRES_ICSP {
      FastSamples(start, bits, got[1..32], 2);
      FirstBitSampled(start, bits, got[0]);
      assert got[..32] == [got[0]] + got[1..32];
    } else {
      FastSamples(start, bits, got[0..32], 1);
      assert got[..32] == got[0..32];
    }
    FastReplyIs(start.regs, wireMode);
  }

  lemma FirstBitSampled(start: Device, bits: seq<bool>, b: bool)
    requires Tap.Valid(start) && start.st.RunTestIdle? && |Capture(start.regs)| == |bits| == 33
    requires Sampled(start, DataPairs(bits), 3, b)
    ensures b == Capture(start.regs)[0]
  {
    hide Clock, Clocks, Tap.Valid, Capture, Update, DataPairs, Sampled;
    FirstSample(start, bits, b);
    FullAccess(start, bits, 0, [b]);
    assert b == [b][0];
  }

  /** The reply's bits: over two wires the second one of the register is missing. */
  lemma FastReplyIs(r: Registers, wireMode: Byte)
    requires r.ir == ToBits(ETAP_FASTDATA, 5)
    ensures |Capture(r)| == 33
    ensures var low := if wireMode == WIRES_ICSP then [Capture(r)[0]] + Capture(r)[2..33] else Capture(r)[1..33];
            FromBits(low) == FastReply(r, wireMode)
  {
    hide Capture, ToBits, FromBits;
    var w := if r.out == [] then 0 else r.out[0];
    AccessFastDataLength(r);
    FastBits(Capture(r), ToBits(w, 32), r.ready);
    if wireMode == WIRES_ICSP {
      ReplaceLowBit(w, r.ready);
    } else {
      WordFromBits(w);
    }
  }

  /** Bits sampled from some clock on are the register's from there on. */
  lemma FastSamples(start: Device, bits: seq<bool>, high: seq<bool>, offset: nat)
    requires Tap.Valid(start) && start.st.RunTestIdle? && |Capture(start.regs)| == |bits| == 33
    requires offset + |high| <= 33 && SampledAll(start, DataPairs(bits), 3 + offset, high)
    ensures Clocks(start, DataPairs(bits)).st.RunTestIdle?
    ensures Clocks(start, DataPairs(bits)).regs == Update(start.regs, bits)
    ensures high == Capture(start.regs)[offset..offset + |high|]
  {
    hide Clock, Clocks, Tap.Valid, Capture, Update;
    forall k: nat | k < |high|
      ensures var e := Clocks(start, DataPairs(bits)[..3 + offset + k]); e.driven ==> high[k] == e.tdo
    {
      assert Sampled(start, DataPairs(bits), k + (3 + offset), high[k]);
    }
    FullAccess(start, bits, offset, high);
  }

  lemma FirstSample(start: Device, bits: seq<bool>, b: bool)
    requires Tap.Valid(start) && |bits| == 33 && Sampled(start, DataPairs(bits), 3, b)
    ensures forall k: nat :: k < |[b]| ==>
              var e := Clocks(start, DataPairs(bits)[..3 + 0 + k]); e.driven ==> [b][k] == e.tdo
  {
    hide Clocks;
  }

  lemma FastBits(all: seq<bool>, word: seq<bool>, ready: bool)
    requires |word| == 32 && all == [ready] + word
    ensures all[0] == ready && all[0..1] == [ready] && all[1..33] == word && all[2..33] == word[1..]
  {
  }

  /** One bit of the response. */
  lemma ReadsBit(base: seq<Byte>, buffer: seq<Byte>, off: nat, got: seq<bool>, size: nat, i: nat)
    requires off + size <= |buffer| == |base| && i < |got| <= 8 * size
    requires Filled(base, buffer, off, got, size)
    ensures Bit(buffer[off + i / 8], i % 8) == (Bit(base[off + i / 8], i % 8) || got[i])
  {
    hide FromBits, Bit, Or;
    var k := i / 8;
    assert buffer[off + k] == Or(base[off + k], PaddedByte(got, k));
    BitOfOr(base[off + k], PaddedByte(got, k), i % 8);
    assert Chunk(got, k)[i % 8] == got[i];
    BitOfFromBits(Chunk(got, k), i % 8);
  }

  /** A transfer: the state it starts from and its parameters. */
  datatype Transfer = Transfer(start: Device, sent: seq<Byte>, dOff: nat, n: nat,
                               response: seq<Byte>, rOff: nat, size: nat,
                               first: seq<bool>, delay: nat)
  {
    ghost predicate Valid()
    {
      && Tap.Valid(start) && delay <= 1
      && dOff + (n + 7) / 8 <= |sent|
      && |first| <= 1 && |first| + n <= 8 * size && rOff + size <= |response|
    }

    function Pairs(): seq<Pair>
      requires dOff + (n + 7) / 8 <= |sent|
    {
      ShiftPairs(BufferBits(sent, dOff, n))
    }
  }

  /** The target has been clocked for the first |got| bits, which were sampled from it. */
  ghost predicate Clocked(job: Transfer, dev: Device, got: seq<bool>)
    requires job.Valid()
  {
    && |got| <= job.n && dev == Clocks(job.start, job.Pairs()[..|got|])
    && SampledAll(job.start, job.Pairs(), job.delay, got)
  }

  /** They are in the response buffer, and the rest of it is untouched. */
  ghost predicate Responded(job: Transfer, response: seq<Byte>, got: seq<bool>)
    requires job.Valid()
  {
    && |response| == |job.response|
    && Filled(job.response, response, job.rOff, job.first + got, job.size)
    && SameOutside(job.response, response, job.rOff, job.rOff + job.size)
  }

  ghost predicate Progress(job: Transfer, dev: Device, data: seq<Byte>, response: seq<Byte>, got: seq<bool>)
  {
    && job.Valid() && Clocked(job, dev, got) && Responded(job, response, got)
    && |data| == |job.sent| && Consumed(job.sent, data, job.dOff, |got|)
  }

  /** Byte of the response that takes the next bit, and its position there. */
  function ResponseByte(job: Transfer, got: seq<bool>): nat
  {
    job.rOff + (|job.first| + |got|) / 8
  }

  function ResponseBit(job: Transfer, got: seq<bool>): nat
  {
    (|job.first| + |got|) % 8
  }

  lemma ProgressStart(job: Transfer, response: seq<Byte>)
    requires job.Valid() && |response| == |job.response|
    requires Filled(job.response, response, job.rOff, job.first, job.size)
    requires SameOutside(job.response, response, job.rOff, job.rOff + job.size)
    ensures Progress(job, job.start, job.sent, response, [])
  {
    ConsumedStart(job.sent, job.dOff);
    assert job.first + [] == job.first;
  }

  /** There is room for the next bit received. */
  lemma ResponseHasRoom(job: Transfer, response: seq<Byte>, got: seq<bool>)
    requires job.Valid() && Responded(job, response, got) && |got| < job.n
    ensures ResponseByte(job, got) < |response|
    ensures forall b :: Or(response[ResponseByte(job, got)], Level(b) * Pow2(ResponseBit(job, got))) < 0x100
  {
    hide Or, Pow2, Filled;
    FilledAppends(job.response, response, job.rOff, job.first + got, job.size, true);
    FilledAppends(job.response, response, job.rOff, job.first + got, job.size, false);
  }

  lemma ResponseStep(job: Transfer, response: seq<Byte>, got: seq<bool>, b: bool)
    requires job.Valid() && Responded(job, response, got) && |got| < job.n
    ensures var r := ResponseByte(job, got);
            && r < |response|
            && var v := Or(response[r], Level(b) * Pow2(ResponseBit(job, got)));
               v < 0x100 && Responded(job, response[r := v], got + [b])
  {
    hide Or, Pow2, Filled;
    FilledAppends(job.response, response, job.rOff, job.first + got, job.size, b);
    assert (job.first + got) + [b] == job.first + (got + [b]);
  }

  lemma ClocksStep(start: Device, pairs: seq<Pair>, i: nat)
    requires Tap.Valid(start) && i < |pairs|
    ensures Clocks(start, pairs[..i + 1]) == Clock(Clocks(start, pairs[..i]), pairs[i].tms, pairs[i].tdi)
  {
    assert pairs[..i + 1] == pairs[..i] + [pairs[i]];
    ClocksSnoc(start, pairs[..i], pairs[i]);
  }

  lemma ClockedStep(job: Transfer, dev: Device, got: seq<bool>, dev': Device, b: bool)
    requires job.Valid() && Clocked(job, dev, got) && |got| < job.n
    requires dev' == Clock(dev, |got| == job.n - 1, job.Pairs()[|got|].tdi)
    requires job.delay == 0 && dev.driven ==> b == dev.tdo
    requires job.delay == 1 && dev'.driven ==> b == dev'.tdo
    ensures Clocked(job, dev', got + [b])
  {
    hide Clock, Clocks, Tap.Valid, BufferBits;
    var i, pairs := |got|, job.Pairs();
    ClocksStep(job.start, pairs, i);
    assert dev' == Clocks(job.start, pairs[..i + 1]);
    assert Sampled(job.start, pairs, i + job.delay, b);
    SampledAllGrows(job.start, pairs, job.delay, got, b);
  }

  lemma SampledAllGrows(start: Device, pairs: seq<Pair>, delay: nat, got: seq<bool>, b: bool)
    requires Tap.Valid(start) && SampledAll(start, pairs, delay, got) && Sampled(start, pairs, |got| + delay, b)
    ensures SampledAll(start, pairs, delay, got + [b])
  {
    hide Sampled;
  }

  /** The next bit to send is the low bit of the current byte, and there is room for the
      next bit received. */
  lemma ProgressNext(job: Transfer, dev: Device, data: seq<Byte>, response: seq<Byte>, got: seq<bool>)
    requires Progress(job, dev, data, response, got) && |got| < job.n
    ensures var d := job.dOff + |got| / 8;
            d < |data| && (data[d] % 2 == 1) == job.Pairs()[|got|].tdi
    ensures var r := ResponseByte(job, got);
            r < |response| && forall b :: Or(response[r], Level(b) * Pow2(ResponseBit(job, got))) < 0x100
  {
    hide Bit, Consumed, Clocked, Responded, Or, Pow2;
    ConsumedHead(job.sent, data, job.dOff, |got|);
    ResponseHasRoom(job, response, got);
  }

  lemma ProgressStep(job: Transfer, dev: Device, data: seq<Byte>, response: seq<Byte>, got: seq<bool>,
                     dev': Device, data': seq<Byte>, response': seq<Byte>, b: bool)
    requires Progress(job, dev, data, response, got) && |got| < job.n
    requires Tap.Valid(dev) && dev' == Clock(dev, |got| == job.n - 1, job.Pairs()[|got|].tdi)
    requires job.delay == 0 && dev.driven ==> b == dev.tdo
    requires job.delay == 1 && dev'.driven ==> b == dev'.tdo
    requires var d := job.dOff + |got| / 8;
             d < |data| && data' == data[d := data[d] / 2]
    requires var r := ResponseByte(job, got);
             && r < |response|
             && var v := Or(response[r], Level(b) * Pow2(ResponseBit(job, got)));
                v < 0x100 && response' == response[r := v]
    ensures Progress(job, dev', data', response', got + [b])
  {
    hide Consumed, Clocked, Responded, Clock, Or, Pow2, Tap.Valid;
    ConsumedStep(job.sent, data, job.dOff, |got|);
    ClockedStep(job, dev, got, dev', b);
    ResponseStep(job, response, got, b);
  }

  /** Byte index and bit position of the bit after bit `x`. */
  lemma NextPosition(x: nat)
    ensures x % 8 == 7 ==> (x + 1) / 8 == x / 8 + 1 && (x + 1) % 8 == 0
    ensures x % 8 != 7 ==> (x + 1) / 8 == x / 8 && (x + 1) % 8 == x % 8 + 1
  {
  }

  lemma ProgressDone(job: Transfer, dev: Device, data: seq<Byte>, response: seq<Byte>, got: seq<bool>)
    requires Progress(job, dev, data, response, got) && |got| == job.n
    ensures dev == Clocks(job.start, job.Pairs())
    ensures SampledAll(job.start, job.Pairs(), job.delay, got)
    ensures |response| == |job.response| && Filled(job.response, response, job.rOff, job.first + got, job.size)
    ensures SameOutside(job.response, response, job.rOff, job.rOff + job.size)
    ensures Consumed(job.sent, data, job.dOff, job.n)
  {
    assert job.Pairs()[..job.n] == job.Pairs();
  }

  lemma NoClocks(d: Device, pairs: seq<Pair>)
    requires Tap.Valid(d)
    ensures Clocks(d, pairs[..0]) == d
  {
  }

  lemma CommandLength(cmd: Byte, n: nat)
    ensures |ShiftPairs(ToBits(cmd, n))| == n
  {
  }

  /** Bit `i` of a command is the low bit after `i` shifts. */
  lemma CommandBit(cmd: Byte, n: nat, i: nat)
    requires i < n
    ensures |ShiftPairs(ToBits(cmd, n))| == n
    ensures ShiftPairs(ToBits(cmd, n))[i] == Pair(i == n - 1, Shr(cmd, i) % 2 == 1)
    ensures Shr(cmd, i) / 2 == Shr(cmd, i + 1)
  {
    hide ToBits, Bit, Shr;
    ShrStep(cmd, i);
    ToBitsAt(cmd, n, i);
  }

  class Port {
    var wireMode: Byte

    // Output latches and the direction of the shared data pin.
    var tdi: bool
    var tms: bool
    var pgd: bool
    var pgdDriven: bool

    // The target: phase counter and latches of the two-wire demultiplexer, and the TAP.
    var phase: nat
    var latchedTdi: bool
    var latchedTms: bool
    var dev: Device

    /** Between two clocks: the mode is one of the two, and the demultiplexer is in step. */
    ghost predicate Idle()
      reads this
    {
      (wireMode == WIRES_JTAG || wireMode == WIRES_ICSP) && phase == 0 && Tap.Valid(dev)
    }

    constructor (wireMode: Byte, dev: Device)
      requires (wireMode == WIRES_JTAG || wireMode == WIRES_ICSP) && Tap.Valid(dev)
      ensures Idle() && this.wireMode == wireMode && this.dev == dev
    {
      this.wireMode := wireMode;
      this.dev := dev;
      tdi, tms, pgd, pgdDriven := false, false, false, false;
      phase, latchedTdi, latchedTms := 0, false, false;
    }

    /** Not the adapter's doing: the processor stores words for the probe to collect. */
    method TargetStores(words: seq<Word>)
      requires AtRest()
      modifies this`dev
      ensures AtRest()
      ensures dev == old(dev).(regs := old(dev).regs.(out := words))
    {
      dev := dev.(regs := dev.regs.(out := words));
    }

    /** Nor is this: the processor has taken every FASTDATA word and stores its answer. */
    method TargetAnswers(words: seq<Word>)
      requires AtRest()
      modifies this`dev
      ensures AtRest()
      ensures dev == old(dev).(regs := old(dev).regs.(fifo := [], out := words))
    {
      dev := dev.(regs := dev.regs.(fifo := [], out := words));
    }

    /** Nor this: while the adapter waits, the processor may or may not make an access. */
    method ProcessorMoves(ready: bool)
      requires AtRest()
      modifies this`dev
      ensures AtRest()
      ensures dev == old(dev).(regs := old(dev).regs.(ready := ready))
    {
      dev := dev.(regs := dev.regs.(ready := ready));
    }

    // ----- Pins -----------------------------------------------------------------

    method TckHigh()
      requires Tap.Valid(dev)
      modifies this`dev
      ensures dev == Rise(old(dev), tms, tdi)
    {
      dev := Rise(dev, tms, tdi);
    }

    method TckLow()
      requires Raised(dev)
      modifies this`dev
      ensures dev == Fall(old(dev))
    {
      dev := Fall(dev);
    }

    /** TDO; whatever is picked up when the target does not drive it. */
    method ReadTdo() returns (b: bool)
      ensures dev.driven ==> b == dev.tdo
    {
      b := *;
      if dev.driven {
        b := dev.tdo;
      }
    }

    /** In the third phase the demultiplexer raises TCK. From then on it may drive the
        data pin, so the adapter must have let go of it. */
    method PgcHigh()
      requires phase < 4 && (phase >= 2 ==> !pgdDriven)
      requires phase == 2 ==> Tap.Valid(dev)
      modifies this`dev
      ensures dev == if phase == 2 then Rise(old(dev), latchedTms, latchedTdi) else old(dev)
    {
      if phase == 2 {
        dev := Rise(dev, latchedTms, latchedTdi);
      }
    }

    /** Phases one and two latch TDI and TMS, phase three ends the TCK pulse, phase four
        ends the cycle. */
    method PgcLow()
      requires phase < 4 && (phase < 2 ==> pgdDriven)
      requires phase == 2 ==> Raised(dev)
      modifies this`dev, this`phase, this`latchedTdi, this`latchedTms
      ensures phase == (old(phase) + 1) % 4
      ensures latchedTdi == if old(phase) == 0 then pgd else old(latchedTdi)
      ensures latchedTms == if old(phase) == 1 then pgd else old(latchedTms)
      ensures dev == if old(phase) == 2 then Fall(old(dev)) else old(dev)
    {
      if phase == 0 {
        latchedTdi := pgd;
      } else if phase == 1 {
        latchedTms := pgd;
      } else if phase == 2 {
        dev := Fall(dev);
      }
      phase := (phase + 1) % 4;
    }

    /** The target puts TDO on the data pin in the fourth phase. */
    method ReadPgd() returns (b: bool)
      requires !pgdDriven
      ensures phase == 3 && dev.driven ==> b == dev.tdo
    {
      b := *;
      if phase == 3 && dev.driven {
        b := dev.tdo;
      }
    }

    // ----- One clock ------------------------------------------------------------

    /** Four wires: TDO is sampled while TCK is high, before it changes. */
    method ClockJtag(tmsArg: Byte, tdiArg: Byte) returns (toRet: Byte)
      requires Idle()
      modifies this
      ensures Idle() && wireMode == old(wireMode)
      ensures dev == Clock(old(dev), tmsArg % 2 == 1, tdiArg % 2 == 1)
      ensures toRet < 2 && (old(dev).driven ==> toRet == Level(old(dev).tdo))
    {
      hide Rise, Fall, Tap.Valid, Raised;
      tdi := tdiArg % 2 == 1;
      tms := tmsArg % 2 == 1;
      TckHigh();
      var b := ReadTdo();
      toRet := Level(b);
      TckLow();
    }

    /** One of the two phases in which the adapter drives the data pin. */
    method DrivePhase(b: bool)
      requires phase < 2
      modifies this`pgd, this`pgdDriven, this`dev, this`phase, this`latchedTdi, this`latchedTms
      ensures phase == old(phase) + 1 && pgdDriven && dev == old(dev)
      ensures latchedTdi == if old(phase) == 0 then b else old(latchedTdi)
      ensures latchedTms == if old(phase) == 1 then b else old(latchedTms)
    {
      pgdDriven := true;
      pgd := b;
      PgcHigh();
      PgcLow();
    }

    /** Two wires: TDI, TMS, a turnaround in which TCK pulses, and TDO as it is then. */
    method ClockIcsp(tmsArg: Byte, tdiArg: Byte) returns (toRet: Byte)
      requires Idle()
      modifies this
      ensures Idle() && wireMode == old(wireMode)
      ensures dev == Clock(old(dev), tmsArg % 2 == 1, tdiArg % 2 == 1)
      ensures toRet < 2 && (dev.driven ==> toRet == Level(dev.tdo))
    {
      hide Rise, Fall, Tap.Valid, Raised;
      DrivePhase(tdiArg % 2 == 1);
      DrivePhase(tmsArg % 2 == 1);
      pgd := false;
      pgdDriven := false;
      var dummy := ReadPgd();
      PgcHigh();
      PgcLow();
      PgcHigh();
      var b := ReadPgd();
      toRet := Level(b);
      PgcLow();
    }

    /** Either way, one TCK cycle with the low bits of the arguments. */
    method IoClockBit(tmsArg: Byte, tdiArg: Byte) returns (toRet: Byte)
      requires Idle()
      modifies this
      ensures Idle() && wireMode == old(wireMode)
      ensures dev == Clock(old(dev), tmsArg % 2 == 1, tdiArg % 2 == 1)
      ensures toRet < 2
      ensures wireMode == WIRES_JTAG && old(dev).driven ==> toRet == Level(old(dev).tdo)
      ensures wireMode == WIRES_ICSP && dev.driven ==> toRet == Level(dev.tdo)
    {
      hide Clock, Tap.Valid;
      toRet := 0;
      if wireMode == WIRES_JTAG {
        toRet := ClockJtag(tmsArg, tdiArg);
      } else if wireMode == WIRES_ICSP {
        toRet := ClockIcsp(tmsArg, tdiArg);
      }
    }

    // ----- Pseudo operations ------------------------------------------------------

    method SetMode(modeArg: Byte, nBits: Byte)
      requires Idle()
      modifies this
      ensures Idle() && wireMode == old(wireMode)
      ensures dev == Clocks(old(dev), ModePairs(modeArg, nBits))
    {
      hide Clock, Clocks, Tap.Valid, Bit, Shr;
      var mode: Byte := modeArg;
      var left: nat := nBits;
      ghost var pairs := ModePairs(modeArg, nBits);
      NoClocks(dev, pairs);
      assert mode == Shr(modeArg, 0) by { ShrNothing(modeArg); }
      while left > 0
        invariant left <= nBits
        invariant Idle() && wireMode == old(wireMode)
        invariant mode == Shr(modeArg, nBits - left)
        invariant dev == Clocks(old(dev), pairs[..nBits - left])
      {
        ghost var i := nBits - left;
        left := left - 1;
        ShrStep(modeArg, i);
        ClocksStep(old(dev), pairs, i);
        var unused := IoClockBit(mode, 0);
        mode := mode / 2;
      }
      assert pairs[..nBits] == pairs;
    }

    /** A fixed clock of a header or footer, as the next element of a clock sequence. */
    method Step(tmsArg: Byte, ghost start: Device, ghost done: seq<Pair>) returns (r: Byte)
      requires Idle() && Tap.Valid(start) && dev == Clocks(start, done)
      modifies this
      ensures Idle() && wireMode == old(wireMode)
      ensures dev == Clocks(start, done + [Pair(tmsArg % 2 == 1, false)])
      ensures r < 2
      ensures wireMode == WIRES_ICSP && dev.driven ==> r == Level(dev.tdo)
      ensures wireMode == WIRES_JTAG && old(dev).driven ==> r == Level(old(dev).tdo)
    {
      r := IoClockBit(tmsArg, 0);
      ClocksSnoc(start, done, Pair(tmsArg % 2 == 1, false));
    }

    /** The two clocks that end every access. */
    method Footer()
      requires Idle()
      modifies this
      ensures Idle() && wireMode == old(wireMode)
      ensures dev == Clocks(old(dev), TO_IDLE)
    {
      hide Clock, Tap.Valid;
      ghost var start := dev;
      var r := Step(1, start, []);
      r := Step(0, start, [Pair(true, false)]);
      assert [] + [Pair(true, false)] == [Pair(true, false)];
      assert TO_IDLE == [Pair(true, false)] + [Pair(false, false)];
    }

    method CommandHeader()
      requires Idle()
      modifies this
      ensures Idle() && wireMode == old(wireMode)
      ensures dev == Clocks(old(dev), TO_SHIFT_IR)
    {
      hide Clock, Tap.Valid;
      ghost var start := dev;
      var r := Step(1, start, []);
      assert [] + [Pair(true, false)] == [Pair(true, false)];
      r := Step(1, start, [Pair(true, false)]);
      r := Step(0, start, [Pair(true, false)] + [Pair(true, false)]);
      r := Step(0, start, [Pair(true, false)] + [Pair(true, false)] + [Pair(false, false)]);
      assert TO_SHIFT_IR == [Pair(true, false)] + [Pair(true, false)] + [Pair(false, false)] + [Pair(false, false)];
    }

    method CommandBits(cmdArg: Byte, nCmdBits: Byte)
      requires Idle()
      modifies this
      ensures Idle() && wireMode == old(wireMode)
      ensures dev == Clocks(old(dev), ShiftPairs(ToBits(cmdArg, nCmdBits)))
    {
      hide Clock, Clocks, Tap.Valid, ToBits, Bit, Shr, ShiftPairs;
      ghost var pairs := ShiftPairs(ToBits(cmdArg, nCmdBits));
      var cmd: Byte := cmdArg;
      var left: nat := nCmdBits;
      NoClocks(dev, pairs);
      CommandLength(cmdArg, nCmdBits);
      assert cmd == Shr(cmdArg, 0) by { ShrNothing(cmdArg); }
      while left > 0
        invariant left <= nCmdBits
        invariant Idle() && wireMode == old(wireMode)
        invariant cmd == Shr(cmdArg, nCmdBits - left)
        invariant dev == Clocks(old(dev), pairs[..nCmdBits - left])
      {
        ghost var i := nCmdBits - left;
        left := left - 1;
        CommandBit(cmdArg, nCmdBits, i);
        ClocksStep(old(dev), pairs, i);
        var unused := IoClockBit(if left == 0 then 1 else 0, cmd);
        cmd := cmd / 2;
      }
      assert pairs[..nCmdBits] == pairs;
    }

    /** Load an instruction. */
    method SendCommand(cmdArg: Byte, nCmdBits: Byte)
      requires Idle()
      modifies this
      ensures Idle() && wireMode == old(wireMode)
      ensures dev == Clocks(old(dev), CommandPairs(ToBits(cmdArg, nCmdBits)))
    {
      hide Clock, Tap.Valid;
      ghost var pairs := ShiftPairs(ToBits(cmdArg, nCmdBits));
      CommandHeader();
      CommandBits(cmdArg, nCmdBits);
      ClocksConcat(old(dev), TO_SHIFT_IR, pairs);
      Footer();
      ClocksConcat(old(dev), TO_SHIFT_IR + pairs, TO_IDLE);
    }

    // ----- Data registers -----------------------------------------------------------

    /** One turn of the transfer loop: send the low bit of a data byte, put the sampled
        bit into the response, shift the data byte. */
    method TransferBit(data: array<Byte>, d: nat, response: array<Byte>, r: nat, tdoBits: nat, last: bool)
      returns (t: Byte)
      requires Idle() && data != response && d < data.Length && r < response.Length
      requires forall b :: Or(response[r], Level(b) * Pow2(tdoBits)) < 0x100
      modifies this, data, response
      ensures Idle() && wireMode == old(wireMode) && t < 2
      ensures dev == Clock(old(dev), last, old(data[d]) % 2 == 1)
      ensures wireMode == WIRES_JTAG && old(dev).driven ==> t == Level(old(dev).tdo)
      ensures wireMode == WIRES_ICSP && dev.driven ==> t == Level(dev.tdo)
      ensures response[..] == old(response[..])[r := Or(old(response[r]), Level(t == 1) * Pow2(tdoBits))]
      ensures data[..] == old(data[..])[d := old(data[d]) / 2]
    {
      hide Clock, Tap.Valid, Or, Pow2;
      t := IoClockBit(if last then 1 else 0, data[d]);
      assert t == Level(t == 1);
      response[r] := Or(response[r], t * Pow2(tdoBits));
      data[d] := data[d] / 2;
    }

    /** Shift `nBits` bits of `data` out and as many in. `got` are the bits in the response:
        one already there when the header has been sampled (two wires), then one per clock. */
    method TransferBits(data: array<Byte>, dOff: nat, nBits: Byte,
                        response: array<Byte>, rOff: nat, firstBit: nat,
                        ghost first: seq<bool>, ghost size: nat, ghost base: seq<Byte>)
      returns (ghost got: seq<bool>)
      requires Idle() && data != response
      requires dOff + (nBits + 7) / 8 <= data.Length
      requires |first| == firstBit <= 1 && firstBit + nBits <= 8 * size && rOff + size <= response.Length
      requires |base| == response.Length && Filled(base, response[..], rOff, first, size)
      requires SameOutside(base, response[..], rOff, rOff + size)
      modifies this, data, response
      ensures Idle() && wireMode == old(wireMode)
      ensures var pairs := ShiftPairs(BufferBits(old(data[..]), dOff, nBits));
              && dev == Clocks(old(dev), pairs)
              && |got| == nBits && SampledAll(old(dev), pairs, SampleDelay(wireMode), got)
      ensures Filled(base, response[..], rOff, first + got, size)
      ensures SameOutside(base, response[..], rOff, rOff + size)
      ensures Consumed(old(data[..]), data[..], dOff, nBits)
    {
      hide Clock, Clocks, Tap.Valid, Or, Pow2, Progress, Filled, SampledAll, Consumed, SameOutside, ShiftPairs,
           BufferBits;
      ghost var job := Transfer(dev, data[..], dOff, nBits, base, rOff, size, first, SampleDelay(wireMode));
      var left: nat := nBits;
      var tdoBits, tdiBits := firstBit, 0;
      var r, d := rOff, dOff;
      got := [];
      ProgressStart(job, response[..]);
      while left > 0
        invariant left <= nBits && |got| == nBits - left
        invariant Idle() && wireMode == old(wireMode)
        invariant d == dOff + |got| / 8 && tdiBits == |got| % 8
        invariant r == ResponseByte(job, got) && tdoBits == ResponseBit(job, got)
        invariant Progress(job, dev, data[..], response[..], got)
      {
        left := left - 1;
        ProgressNext(job, dev, data[..], response[..], got);
        ghost var dev0, data0, response0 := dev, data[..], response[..];
        var t := TransferBit(data, d, response, r, tdoBits, left == 0);
        ProgressStep(job, dev0, data0, response0, got, dev, data[..], response[..], t == 1);
        NextPosition(|got|);
        NextPosition(firstBit + |got|);
        got := got + [t == 1];
        tdoBits := tdoBits + 1;
        if tdoBits == 8 {
          tdoBits := 0;
          r := r + 1;
        }
        tdiBits := tdiBits + 1;
        if tdiBits == 8 {
          tdiBits := 0;
          d := d + 1;
        }
      }
      ProgressDone(job, dev, data[..], response[..], got);
    }

    /** The header of a data access. Over two wires the third clock already shows the first
        bit, which starts the response. */
    method DataHeader(response: array<Byte>, rOff: nat, ghost size: nat) returns (firstBit: nat, ghost first: seq<bool>)
      requires Idle() && rOff + size <= response.Length && SampleDelay(wireMode) <= size
      modifies this, response
      ensures Idle() && wireMode == old(wireMode)
      ensures dev == Clocks(old(dev), TO_SHIFT_DR)
      ensures |first| == firstBit == SampleDelay(wireMode)
      ensures wireMode == WIRES_ICSP && dev.driven ==> first[0] == dev.tdo
      ensures var base := ResponseBase(old(response[..]), rOff, wireMode);
              && Filled(base, response[..], rOff, first, size)
              && SameOutside(base, response[..], rOff, rOff + size)
    {
      hide Clock, Tap.Valid;
      ghost var start := dev;
      var r := Step(1, start, []);
      assert [] + [Pair(true, false)] == [Pair(true, false)];
      r := Step(0, start, [Pair(true, false)]);
      r := Step(0, start, [Pair(true, false)] + [Pair(false, false)]);
      assert TO_SHIFT_DR == [Pair(true, false)] + [Pair(false, false)] + [Pair(false, false)];
      firstBit := 0;
      first := [];
      if wireMode == WIRES_ICSP {
        response[rOff] := r;
        firstBit := 1;
        first := [r == 1];
      }
      FilledStart(old(response[..]), rOff, first, size);
    }

    /** Read and write a data register of `nBits` bits. Over two wires one bit more than
        asked for ends up in the response. */
    method XferData(data: array<Byte>, dOff: nat, nBits: Byte, response: array<Byte>, rOff: nat)
      returns (ghost got: seq<bool>)
      requires Idle() && data != response
      requires dOff + (nBits + 7) / 8 <= data.Length
      requires rOff + ResponseSize(nBits, wireMode) <= response.Length
      modifies this, data, response
      ensures Idle() && wireMode == old(wireMode)
      ensures var bits := BufferBits(old(data[..]), dOff, nBits);
              && dev == Clocks(old(dev), DataPairs(bits))
              && |got| == nBits + SampleDelay(wireMode)
              && SampledAll(old(dev), DataPairs(bits), 3, got[..nBits])
      ensures Filled(ResponseBase(old(response[..]), rOff, wireMode), response[..], rOff, got,
                     ResponseSize(nBits, wireMode))
      ensures SameOutside(old(response[..]), response[..], rOff, rOff + ResponseSize(nBits, wireMode))
      ensures Consumed(old(data[..]), data[..], dOff, nBits)
    {
      hide Clock, Clocks, Tap.Valid, Filled, SameOutside, Consumed, BufferBits, Sampled, SampledAll, ShiftPairs;
      ghost var size := ResponseSize(nBits, wireMode);
      ghost var start, response0, bits := dev, response[..], BufferBits(data[..], dOff, nBits);
      var firstBit; ghost var first;
      firstBit, first := DataHeader(response, rOff, size);
      ghost var base := ResponseBase(response0, rOff, wireMode);
      ghost var rest := TransferBits(data, dOff, nBits, response, rOff, firstBit, first, size, base);
      ClocksConcat(start, TO_SHIFT_DR, ShiftPairs(bits));
      Footer();
      ClocksConcat(start, TO_SHIFT_DR + ShiftPairs(bits), TO_IDLE);
      got := first + rest;
      BaseSameOutside(response0, rOff, wireMode, response[..], size);
      AllSampled(start, bits, first, rest);
    }

    /** Exchange a word with the processor. The first bit of the register, sent as zero,
        is PrAcc; 32 data bits follow. Over two wires the sample of the first bit is the
        response's first bit, and the second bit goes where PrAcc should. */
    method XferFastData(data: array<Byte>, dOff: nat, response: array<Byte>, rOff: nat)
      returns (prAcc: Byte, ghost got: seq<bool>)
      requires Idle() && data != response
      requires dOff + 4 <= data.Length
      requires rOff + ResponseSize(32, wireMode) <= response.Length
      modifies this, data, response
      ensures Idle() && wireMode == old(wireMode)
      ensures var bits := [false] + BufferBits(old(data[..]), dOff, 32);
              && dev == Clocks(old(dev), DataPairs(bits))
              && |got| == 32 + SampleDelay(wireMode)
              && SampledAll(old(dev), DataPairs(bits), 4 + SampleDelay(wireMode), got[SampleDelay(wireMode)..32])
              && Sampled(old(dev), DataPairs(bits), 3 + SampleDelay(wireMode), prAcc == 1) && prAcc < 2
              && (wireMode == WIRES_ICSP ==> Sampled(old(dev), DataPairs(bits), 3, got[0]))
      ensures Filled(ResponseBase(old(response[..]), rOff, wireMode), response[..], rOff, got,
                     ResponseSize(32, wireMode))
      ensures SameOutside(old(response[..]), response[..], rOff, rOff + ResponseSize(32, wireMode))
      ensures Consumed(old(data[..]), data[..], dOff, 32)
    {
      hide Clock, Clocks, Tap.Valid, Filled, SameOutside, Consumed, BufferBits, Sampled, SampledAll;
      ghost var size := ResponseSize(32, wireMode);
      ghost var start, response0, word := dev, response[..], BufferBits(data[..], dOff, 32);
      ghost var bits := [false] + word;
      var firstBit; ghost var first;
      firstBit, first := DataHeader(response, rOff, size);
      ghost var base := ResponseBase(response0, rOff, wireMode);
      prAcc := Step(0, start, TO_SHIFT_DR);
      ghost var shifted := dev;
      FastPairs(word);
      ghost var rest := TransferBits(data, dOff, 32, response, rOff, firstBit, first, size, base);
      ClocksConcat(start, TO_SHIFT_DR + [Pair(false, false)], ShiftPairs(word));
      assert TO_SHIFT_DR + ShiftPairs(bits) == TO_SHIFT_DR + [Pair(false, false)] + ShiftPairs(word);
      Footer();
      ClocksConcat(start, TO_SHIFT_DR + ShiftPairs(bits), TO_IDLE);
      got := first + rest;
      BaseSameOutside(response0, rOff, wireMode, response[..], size);
      if wireMode == WIRES_ICSP {
        HeaderSampled(start, bits, first[0]);
        NothingClocked(shifted, ShiftPairs(word), prAcc == 1);
        FastBitSampled(start, word, 0, prAcc == 1);
      } else {
        HeaderSampled(start, bits, prAcc == 1);
      }
      FastBitsSampled(start, word, firstBit, rest);
      assert got[firstBit..32] == rest[..32 - firstBit];
    }

    // ----- Words -----------------------------------------------------------------------

    /** Between two operations. */
    ghost predicate AtRest()
      reads this
    {
      Idle() && dev.st.RunTestIdle?
    }

    /** XferData on a 32-bit register: it is written with the word sent, and the response
        has what it contained. */
    method Exchange(data: array<Byte>, dOff: nat, response: array<Byte>, rOff: nat)
      returns (ghost got: seq<bool>)
      requires AtRest() && data != response && |Capture(dev.regs)| == 32
      requires dOff + 4 <= data.Length && rOff + ResponseSize(32, wireMode) <= response.Length
      modifies this, data, response
      ensures AtRest() && wireMode == old(wireMode)
      ensures dev.regs == Update(old(dev.regs), BufferBits(old(data[..]), dOff, 32))
      ensures |got| == 32 + SampleDelay(wireMode) && got[..32] == Capture(old(dev.regs))
      ensures Filled(ResponseBase(old(response[..]), rOff, wireMode), response[..], rOff, got,
                     ResponseSize(32, wireMode))
      ensures SameOutside(old(response[..]), response[..], rOff, rOff + ResponseSize(32, wireMode))
      ensures Consumed(old(data[..]), data[..], dOff, 32)
    {
      hide Clock, Clocks, Tap.Valid, Filled, SameOutside, Consumed, BufferBits, Capture, Update;
      ghost var start, bits := dev, BufferBits(data[..], dOff, 32);
      got := XferData(data, dOff, 32, response, rOff);
      ghost var low := got[..32];
      forall k: nat | k < |low|
        ensures var e := Clocks(start, DataPairs(bits)[..3 + 0 + k]); e.driven ==> low[k] == e.tdo
      {
        assert Sampled(start, DataPairs(bits), k + 3, low[k]);
      }
      FullAccess(start, bits, 0, low);
    }

    method Select5(code: Byte)
      requires AtRest() && code < 32
      modifies this
      ensures AtRest() && wireMode == old(wireMode)
      ensures dev.regs == Select(old(dev.regs), code)
    {
      hide Clock, Clocks, Tap.Valid, CommandPairs, ToBits;
      ghost var start := dev;
      SendCommand(code, 5);
      CommandLoads(start, ToBits(code, 5));
    }

    /** One poll of the selected control register. The value sent is gone afterwards. */
    method Poll(instrCode: array<Byte>, readVal: array<Byte>) returns (ok: bool)
      requires AtRest() && instrCode != readVal && instrCode.Length == 4 && readVal.Length == 5
      requires |Capture(dev.regs)| == 32
      modifies this, instrCode, readVal
      ensures AtRest() && wireMode == old(wireMode)
      ensures dev.regs == Update(old(dev.regs), BufferBits(old(instrCode[..]), 0, 32))
      ensures ok == Bit(readVal[2], 2) == (Bit(old(readVal[2]), 2) || Capture(old(dev.regs))[PRACC])
      ensures instrCode[..] == WordBytes(0)
    {
      hide Clock, Clocks, Tap.Valid, Filled, SameOutside, BufferBits, Capture, Update, Bit, ToBits, Shr;
      ghost var base, sent := ResponseBase(readVal[..], 0, wireMode), instrCode[..];
      ghost var got := Exchange(instrCode, 0, readVal, 0);
      ReadsBit(base, readVal[..], 0, got, ResponseSize(32, wireMode), PRACC);
      ConsumedDone(sent, instrCode[..], 0, 32);
      ok := Bit(readVal[2], 2);
    }

    /** Poll the control register until the processor waits for the probe. The first poll
        shifts its own value out of the variable, so every later one sends zeros: it switches
        the probe off, and if it finds an access pending it completes it as well. `prAcc` says
        at which of the later polls, counted from 0, one is pending. */
    method WaitEtapReady(retryCounts: Byte, prAcc: nat -> bool) returns (ok: bool)
      requires AtRest()
      modifies this
      ensures AtRest() && wireMode == old(wireMode)
      ensures ok <==> old(dev.regs.ready) || exists i: nat :: i < retryCounts && prAcc(i)
      ensures Waited(old(dev.regs), dev.regs, ok, retryCounts)
      ensures old(dev.regs.ready) ==> ok && dev.regs.probeOn
      ensures !old(dev.regs.ready) && retryCounts > 0 ==> !dev.regs.probeOn
    {
      hide Clock, Clocks, Tap.Valid, BufferBits, Capture, Update, Bit, ToBits, Acknowledge;
      var instrCode := new Byte[4](i requires 0 <= i < 4 => WordBytes(POLL)[i]);
      // The variable is four bytes long; over two wires the byte after it is written too.
      var readVal := new Byte[5](i => 0);
      ghost var r0 := dev.regs;
      Select5(0x0A);
      PollControl(r0);
      WordBufferBits(POLL, instrCode[..], 0);
      BitOfZero(2);
      ok := Poll(instrCode, readVal);
      LateProbe(r0);
      var left: nat := retryCounts;
      while !ok && left > 0
        invariant left <= retryCounts && AtRest() && wireMode == old(wireMode)
        invariant ok == Bit(readVal[2], 2) && instrCode[..] == WordBytes(0)
        invariant Waited(r0, dev.regs, ok, retryCounts - left)
        invariant ok <==> r0.ready || exists i: nat :: i < retryCounts - left && prAcc(i)
      {
        ProcessorMoves(prAcc(retryCounts - left));
        left := left - 1;
        ZeroControl(dev.regs);
        WordBufferBits(0, instrCode[..], 0);
        ok := Poll(instrCode, readVal);
      }
    }

    /** Give the processor an instruction. `prAcc` is as above. */
    method XferInstruction(instrData: Word, prAcc: nat -> bool) returns (ok: bool)
      requires AtRest()
      modifies this
      ensures AtRest() && wireMode == old(wireMode)
      ensures ok <==> old(dev.regs.ready) || exists i: nat :: i < 150 && prAcc(i)
      ensures old(dev.regs.ready) ==> ok && dev.regs == Supply(old(dev.regs), instrData)
      ensures !old(dev.regs.ready) && ok ==> dev.regs == Supply(Late(old(dev.regs)), instrData)
      ensures !ok ==> dev.regs == Missed(old(dev.regs))
    {
      hide Clock, Clocks, Tap.Valid, BufferBits, Capture, Update, Bit, ToBits, Filled, SameOutside, Consumed,
           SupplyBits, Acknowledge;
      var data := new Byte[4](i requires 0 <= i < 4 => WordBytes(instrData)[i]);
      ghost var r0 := dev.regs;
      ok := WaitEtapReady(150, prAcc);
      if !ok {
        return;
      }
      var dummyRead := new Byte[5](i => 0);
      SupplySteps(r0, ToBits(instrData, 32));
      WordBufferBits(instrData, data[..], 0);
      AccessData(dev.regs, ToBits(instrData, 32));
      ghost var got := SendAndRelease(data, dummyRead, 0);
    }

    /** Exchange the data register, then let the processor go on. */
    method SendAndRelease(data: array<Byte>, response: array<Byte>, rOff: nat) returns (ghost got: seq<bool>)
      requires AtRest() && data != response && data.Length >= 4
      requires rOff + ResponseSize(32, wireMode) <= response.Length
      modifies this, data, response
      ensures AtRest() && wireMode == old(wireMode)
      ensures dev.regs == SupplyBits(old(dev.regs), BufferBits(old(data[..]), 0, 32))
      ensures |got| == 32 + SampleDelay(wireMode) && got[..32] == Capture(Select(old(dev.regs), ETAP_DATA))
      ensures Filled(ResponseBase(old(response[..]), rOff, wireMode), response[..], rOff, got,
                     ResponseSize(32, wireMode))
      ensures SameOutside(old(response[..]), response[..], rOff, rOff + ResponseSize(32, wireMode))
    {
      hide Clock, Clocks, Tap.Valid, BufferBits, Capture, Update, Bit, ToBits, Filled, SameOutside, Consumed,
           SupplyBits, Acknowledge;
      var instrCode := new Byte[4](i requires 0 <= i < 4 => WordBytes(RELEASE)[i]);
      var dummyRead := new Byte[5](i => 0);
      ghost var r, bits := dev.regs, BufferBits(data[..], 0, 32);
      Select5(0x09);
      AccessData(r, bits);
      got := Exchange(data, 0, response, rOff);
      ghost var r2 := dev.regs;
      Select5(0x0A);
      ReleaseControl(r2);
      WordBufferBits(RELEASE, instrCode[..], 0);
      ghost var last := Exchange(instrCode, 0, dummyRead, 0);
      SupplySteps(r, bits);
    }

    /** Collect a word that the processor has stored for the probe; if it has not stored one,
        the response is what the data register contains. The result of waiting is not looked
        at. The data pointer of the call is null, so whatever the adapter has at address zero
        is sent (and shifted). */
    method GetPeResponse(lowRam: array<Byte>, response: array<Byte>, rOff: nat)
      returns (ghost ok: bool, ghost waited: Registers)
      requires AtRest() && lowRam != response && lowRam.Length >= 4
      requires rOff + ResponseSize(32, wireMode) <= response.Length
      requires forall k :: rOff + SampleDelay(wireMode) <= k < rOff + 4 ==> response[k] == 0
      requires wireMode == WIRES_JTAG ==> response[rOff] == 0
      modifies this, lowRam, response
      ensures AtRest() && wireMode == old(wireMode)
      ensures Waited(old(dev.regs), waited, ok, 150)
      ensures dev.regs == SupplyBits(waited, BufferBits(old(lowRam[..]), 0, 32))
      ensures LittleEndian(response[rOff], response[rOff + 1], response[rOff + 2], response[rOff + 3]) == Shown(waited)
      ensures SameOutside(old(response[..]), response[..], rOff, rOff + ResponseSize(32, wireMode))
      ensures old(dev.regs.ready && dev.regs.out != []) ==>
                && Shown(waited) == old(dev.regs.out)[0] && dev.regs.out == old(dev.regs.out)[1..]
                && dev.regs.ready && dev.regs.probeOn
                && dev.regs.probe == old(dev.regs.probe) && dev.regs.fifo == old(dev.regs.fifo)
    {
      hide Clock, Clocks, Tap.Valid, BufferBits, Capture, Update, Bit, ToBits, Filled, Consumed, LittleEndian, FromBits;
      var prAcc: nat -> bool := *;
      ok := WaitEtapReady(150, prAcc);
      waited := dev.regs;
      ghost var base := ResponseBase(response[..], rOff, wireMode);
      ghost var got := SendAndRelease(lowRam, response, rOff);
      ReadsWord(base, response[..], rOff, got, ResponseSize(32, wireMode));
      ShownCaptured(waited);
    }

    /** XferFastData with the FASTDATA register selected. Over two wires PrAcc takes the
        place of the lowest data bit. */
    method FastExchange(data: array<Byte>, dOff: nat, response: array<Byte>, rOff: nat) returns (prAcc: Byte)
      requires AtRest() && data != response && dev.regs.ir == ToBits(ETAP_FASTDATA, 5)
      requires dOff + 4 <= data.Length && rOff + ResponseSize(32, wireMode) <= response.Length
      requires forall k :: rOff <= k < rOff + 4 ==> response[k] == 0
      modifies this, data, response
      ensures AtRest() && wireMode == old(wireMode)
      ensures forall w: Word :: old(data[..])[dOff..dOff + 4] == WordBytes(w) ==>
                dev.regs == FastTransfer(old(dev.regs), w)
      ensures LittleEndian(response[rOff], response[rOff + 1], response[rOff + 2], response[rOff + 3])
              == FastReply(old(dev.regs), wireMode)
      ensures prAcc < 2 && (wireMode == WIRES_JTAG ==> prAcc == Level(old(dev.regs.ready)))
      ensures SameOutside(old(response[..]), response[..], rOff, rOff + ResponseSize(32, wireMode))
      ensures Consumed(old(data[..]), data[..], dOff, 32)
    {
      hide Clock, Clocks, Tap.Valid, BufferBits, Capture, Update, Bit, ToBits, Filled, Consumed, SameOutside,
           LittleEndian, FastTransfer, FastReply;
      ghost var start, sent := dev, data[..];
      ghost var bits := [false] + BufferBits(sent, dOff, 32);
      ghost var base := ResponseBase(response[..], rOff, wireMode);
      ghost var got;
      AccessFastDataLength(dev.regs);
      prAcc, got := XferFastData(data, dOff, response, rOff);
      ReadsWord(base, response[..], rOff, got, ResponseSize(32, wireMode));
      FastReadsBack(start, bits, wireMode, got);
      if wireMode == WIRES_JTAG {
        FirstBitSampled(start, bits, prAcc == 1);
      }
      FastWritten(start.regs, sent, dOff);
    }
  }
}
