/** Numbers as bit sequences, least significant bit first. */
module Bits {
  import opened Words

  /** Bit `i` of `v`: shift right `i` times and look at the last bit. */
  function Bit(v: nat, i: nat): bool
    decreases i
  {
    if i == 0 then v % 2 == 1 else Bit(v / 2, i - 1)
  }

  function Shr(v: nat, i: nat): nat
    decreases i
  {
    if i == 0 then v else Shr(v / 2, i - 1)
  }

  function ToBits(v: nat, n: nat): (bits: seq<bool>)
    ensures |bits| == n
    decreases n
  {
    if n == 0 then [] else [v % 2 == 1] + ToBits(v / 2, n - 1)
  }

  function FromBits(bits: seq<bool>): (v: nat)
    ensures v < Pow2(|bits|)
    decreases |bits|
  {
    if bits == [] then 0 else (if bits[0] then 1 else 0) + 2 * FromBits(bits[1..])
  }

  lemma {:induction false} ToBitsAt(v: nat, n: nat, i: nat)
    requires i < n
    ensures ToBits(v, n)[i] == Bit(v, i)
    decreases n
  {
    if i > 0 {
      ToBitsAt(v / 2, n - 1, i - 1);
    }
  }

  lemma NoBits()
    ensures FromBits([]) == 0
  {
  }

  lemma ShrNothing(v: nat)
    ensures Shr(v, 0) == v
  {
  }

  lemma {:induction false} Pow2Grows(m: nat, n: nat)
    requires m <= n
    ensures Pow2(m) <= Pow2(n)
    decreases n
  {
    if m < n {
      Pow2Grows(m, n - 1);
    }
  }

  lemma {:induction false} RoundTrip(v: nat, n: nat)
    requires v < Pow2(n)
    ensures FromBits(ToBits(v, n)) == v
    decreases n
  {
    if n > 0 {
      RoundTrip(v / 2, n - 1);
      assert ToBits(v, n)[1..] == ToBits(v / 2, n - 1);
    }
  }

  lemma {:induction false} FromBitsConcat(a: seq<bool>, b: seq<bool>)
    ensures FromBits(a + b) == FromBits(a) + Pow2(|a|) * FromBits(b)
    decreases |a|
  {
    if a == [] {
      assert a + b == b;
    } else {
      assert (a + b)[1..] == a[1..] + b;
      FromBitsConcat(a[1..], b);
      var first := if a[0] then 1 else 0;
      ConcatStep(first, FromBits(a[1..]), Pow2(|a| - 1), FromBits(b), FromBits(a[1..] + b));
    }
  }

  lemma ConcatStep(first: nat, low: nat, p: nat, x: nat, tail: nat)
    requires tail == low + p * x
    ensures first + 2 * tail == (first + 2 * low) + (2 * p) * x
  {
    assert 2 * (p * x) == (2 * p) * x;
  }

  lemma {:induction false} ShrStep(v: nat, i: nat)
    ensures Shr(v, i + 1) == Shr(v, i) / 2
    ensures Bit(v, i) == (Shr(v, i) % 2 == 1)
    decreases i
  {
    if i > 0 {
      ShrStep(v / 2, i - 1);
    }
  }

  lemma {:induction false} ShrToZero(v: nat, n: nat)
    requires v < Pow2(n)
    ensures Shr(v, n) == 0
    decreases n
  {
    if n > 0 {
      ShrToZero(v / 2, n - 1);
    }
  }

  lemma {:induction false} ShrAdds(v: nat, m: nat, n: nat)
    ensures Shr(v, m + n) == Shr(Shr(v, m), n)
    ensures Bit(v, m + n) == Bit(Shr(v, m), n)
    decreases m
  {
    if m > 0 {
      ShrAdds(v / 2, m - 1, n);
    }
  }

  /** OR-ing a bit into the first free position of a byte appends it. */
  lemma OrAppends(bits: seq<bool>, b: bool)
    ensures Or(FromBits(bits), (if b then 1 else 0) * Pow2(|bits|)) == FromBits(bits + [b])
  {
    assert FromBits([b]) == (if b then 1 else 0);
    hide Pow2, FromBits, Or;
    FromBitsConcat(bits, [b]);
    if b {
      OrCommutes(FromBits(bits), 1 * Pow2(|bits|));
      OrDisjoint(1, |bits|, FromBits(bits));
    } else {
      OrCommutes(FromBits(bits), 0 * Pow2(|bits|));
      OrDisjoint(0, |bits|, FromBits(bits));
    }
  }

  // ----- Words and their bytes ------------------------------------------------

  lemma Pow2Values()
    ensures Pow2(8) == 0x100 && Pow2(16) == 0x1_0000 && Pow2(24) == 0x100_0000
    ensures Pow2(32) == 0x1_0000_0000
  {
    assert Pow2(4) == 16;
    assert Pow2(8) == 0x100;
    assert Pow2(12) == 0x1000;
    assert Pow2(16) == 0x1_0000;
    assert Pow2(20) == 0x10_0000;
    assert Pow2(24) == 0x100_0000;
    assert Pow2(28) == 0x1000_0000;
  }

  lemma ShrBytes(v: nat)
    ensures Shr(v, 8) == v / 0x100
  {
    assert Shr(v, 4) == v / 2 / 2 / 2 / 2 == v / 16;
    ShrAdds(v, 4, 4);
    assert Shr(v / 16, 4) == v / 16 / 2 / 2 / 2 / 2;
  }

  /** The low byte keeps the low eight bits. */
  lemma BitOfLowByte(v: nat, j: nat)
    requires j < 8
    ensures Bit(v % 0x100, j) == Bit(v, j)
  {
    var q, r := v / 0x100, v % 0x100;
    BitOfSum(q, r, 8, j);
    Pow2Values();
  }

  lemma {:induction false} BitOfSum(q: nat, r: nat, n: nat, j: nat)
    requires j < n
    ensures Bit(q * Pow2(n) + r, j) == Bit(r, j)
    decreases n
  {
    var v := q * Pow2(n) + r;
    assert v == 2 * (q * Pow2(n - 1)) + r by { MulAssoc(q, Pow2(n - 1)); }
    if j > 0 {
      assert v / 2 == q * Pow2(n - 1) + r / 2;
      BitOfSum(q, r / 2, n - 1, j - 1);
    }
  }

  lemma WordShifts(w: Word)
    ensures Shr(w, 0) == w && Shr(w, 8) == w / 0x100
    ensures Shr(w, 16) == w / 0x100 / 0x100 && Shr(w, 24) == w / 0x100 / 0x100 / 0x100
  {
    ShrBytes(w);
    ShrAdds(w, 8, 8);
    ShrBytes(w / 0x100);
    ShrAdds(w, 16, 8);
    ShrBytes(w / 0x100 / 0x100);
  }

  lemma WordQuotients(w: Word)
    ensures w / 0x1_0000 == w / 0x100 / 0x100
    ensures w / 0x100_0000 == w / 0x100 / 0x100 / 0x100 < 0x100
  {
    assert w / 0x1_0000 == w / 0x100 / 0x100;
    assert w / 0x100_0000 == w / 0x1_0000 / 0x100;
  }

  lemma ByteIsShifted(w: Word, k: nat)
    requires k < 4
    ensures ByteOf(w, k) == Shr(w, 8 * k) % 0x100
  {
    WordShifts(w);
    WordQuotients(w);
    hide Shr;
    assert k == 0 || k == 1 || k == 2 || k == 3;
  }

  /** Bit `i` of a word is bit `i % 8` of its byte `i / 8`. */
  lemma BitOfWord(w: Word, i: nat)
    requires i < 32
    ensures Bit(w, i) == Bit(ByteOf(w, i / 8), i % 8)
  {
    hide ByteOf, Shr, Bit;
    var k, j := i / 8, i % 8;
    ShrAdds(w, 8 * k, j);
    ByteIsShifted(w, k);
    BitOfLowByte(Shr(w, 8 * k), j);
  }

  lemma ByteFirst(a: seq<bool>, b: seq<bool>)
    requires |a| == 8
    ensures FromBits(a) < 0x100 && FromBits(a + b) == FromBits(a) + 0x100 * FromBits(b)
  {
    hide Pow2, FromBits;
    Pow2Values();
    FromBitsConcat(a, b);
  }

  /** Four packed bytes make the word of their 32 bits. */
  lemma PackedWord(bits: seq<bool>)
    requires |bits| == 32
    ensures FromBits(bits[..8]) < 0x100 && FromBits(bits[8..16]) < 0x100
    ensures FromBits(bits[16..24]) < 0x100 && FromBits(bits[24..]) < 0x100
    ensures FromBits(bits) < 0x1_0000_0000
    ensures LittleEndian(FromBits(bits[..8]), FromBits(bits[8..16]),
                         FromBits(bits[16..24]), FromBits(bits[24..])) == FromBits(bits)
  {
    hide Pow2, FromBits;
    assert bits == bits[..8] + bits[8..];
    assert bits[8..] == bits[8..16] + bits[16..];
    assert bits[16..] == bits[16..24] + bits[24..];
    ByteFirst(bits[..8], bits[8..]);
    ByteFirst(bits[8..16], bits[16..]);
    ByteFirst(bits[16..24], bits[24..]);
    ByteFirst(bits[24..], []);
  }

  lemma {:induction false} BitOfOr(a: nat, b: nat, i: nat)
    ensures Bit(Or(a, b), i) == (Bit(a, i) || Bit(b, i))
    decreases i
  {
    OrHalves(a, b);
    if i > 0 {
      BitOfOr(a / 2, b / 2, i - 1);
    }
  }

  lemma {:induction false} BitOfFromBits(bits: seq<bool>, i: nat)
    requires i < |bits|
    ensures Bit(FromBits(bits), i) == bits[i]
    decreases i
  {
    if i > 0 {
      BitOfFromBits(bits[1..], i - 1);
    }
  }

  lemma {:induction false} BitOfZero(i: nat)
    ensures !Bit(0, i)
    decreases i
  {
    if i > 0 {
      BitOfZero(i - 1);
    }
  }

  /** The low bits of a number. */
  lemma LowBits(q: nat, r: nat, n: nat)
    requires r < Pow2(n)
    ensures FromBits(ToBits(q * Pow2(n) + r, n)) == r
  {
    forall j: nat | j < n
      ensures ToBits(q * Pow2(n) + r, n)[j] == ToBits(r, n)[j]
    {
      ToBitsAt(q * Pow2(n) + r, n, j);
      ToBitsAt(r, n, j);
      BitOfSum(q, r, n, j);
    }
    assert ToBits(q * Pow2(n) + r, n) == ToBits(r, n);
    RoundTrip(r, n);
  }

  lemma ToBitsPrefix(v: nat, m: nat, n: nat)
    requires m <= n
    ensures ToBits(v, n)[..m] == ToBits(v, m)
  {
    forall j: nat | j < m
      ensures ToBits(v, n)[j] == ToBits(v, m)[j]
    {
      ToBitsAt(v, n, j);
      ToBitsAt(v, m, j);
    }
  }
}
