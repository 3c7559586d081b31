/** 32-bit words, bytes and the bitwise operators the programs use on them. */
module Words {

  datatype Option<+T> = None | Some(value: T)

  type Word = x: int | 0 <= x < 0x1_0000_0000

  type Half = x: int | 0 <= x < 0x1_0000

  type Byte = x: int | 0 <= x < 0x100

  /** A range of addresses. */
  predicate Within(x: int, base: int, size: int)
  {
    base <= x < base + size
  }

  /** Bitwise OR of two non-negative numbers, bit by bit. */
  function Or(a: nat, b: nat): nat
  {
    if a == 0 then b
    else if b == 0 then a
    else (if a % 2 == 1 || b % 2 == 1 then 1 else 0) + 2 * Or(a / 2, b / 2)
  }

  function Pow2(n: nat): (r: nat)
    ensures r > 0
  {
    if n == 0 then 1 else 2 * Pow2(n - 1)
  }

  /** OR-ing bits below position `n` into a number that has none there is addition. */
  lemma {:induction false} OrDisjoint(high: nat, n: nat, low: nat)
    requires low < Pow2(n)
    ensures Or(high * Pow2(n), low) == high * Pow2(n) + low
  {
    if high == 0 || low == 0 || n == 0 {
    } else {
      var h := high * Pow2(n);
      assert h == 2 * (high * Pow2(n - 1)) by { MulAssoc(high, Pow2(n - 1)); }
      assert h / 2 == high * Pow2(n - 1) && h % 2 == 0;
      assert low / 2 < Pow2(n - 1);
      OrDisjoint(high, n - 1, low / 2);
      assert h != 0 by { MulPositive(high, Pow2(n)); }
    }
  }

  lemma MulAssoc(a: nat, p: nat)
    ensures a * (2 * p) == 2 * (a * p)
  {
  }

  lemma MulPositive(a: nat, b: nat)
    requires a > 0 && b > 0
    ensures a * b > 0
  {
  }

  lemma {:induction false} OrCommutes(a: nat, b: nat)
    ensures Or(a, b) == Or(b, a)
  {
    if a != 0 && b != 0 {
      OrCommutes(a / 2, b / 2);
    }
  }

  lemma {:induction false} OrAssociates(a: nat, b: nat, c: nat)
    ensures Or(Or(a, b), c) == Or(a, Or(b, c))
  {
    if a != 0 && b != 0 && c != 0 {
      OrAssociates(a / 2, b / 2, c / 2);
      OrHalves(a, b);
      OrHalves(b, c);
      OrHalves(Or(a, b), c);
      OrHalves(a, Or(b, c));
    }
  }

  lemma OrHalves(a: nat, b: nat)
    ensures Or(a, b) / 2 == Or(a / 2, b / 2)
    ensures (Or(a, b) % 2 == 1) == (a % 2 == 1 || b % 2 == 1)
  {
    var bit, rest := if a % 2 == 1 || b % 2 == 1 then 1 else 0, Or(a / 2, b / 2);
    if a != 0 && b != 0 {
      assert Or(a, b) == bit + 2 * rest;
    }
    hide Or;
    assert (bit + 2 * rest) / 2 == rest && (bit + 2 * rest) % 2 == bit;
  }

  lemma {:induction false} OrBounded(a: nat, b: nat, n: nat)
    requires a < Pow2(n) && b < Pow2(n)
    ensures Or(a, b) < Pow2(n)
    decreases n
  {
    if n > 0 {
      OrBounded(a / 2, b / 2, n - 1);
      OrHalves(a, b);
    }
  }

  /** Byte `k` of a word, least significant first. */
  function ByteOf(w: Word, k: nat): Byte
    requires k < 4
  {
    if k == 0 then w % 0x100
    else if k == 1 then w / 0x100 % 0x100
    else if k == 2 then w / 0x1_0000 % 0x100
    else w / 0x100_0000
  }

  function LittleEndian(b0: Byte, b1: Byte, b2: Byte, b3: Byte): Word
  {
    b0 + 0x100 * b1 + 0x1_0000 * b2 + 0x100_0000 * b3
  }

  lemma BytesRoundTrip(w: Word)
    ensures LittleEndian(ByteOf(w, 0), ByteOf(w, 1), ByteOf(w, 2), ByteOf(w, 3)) == w
  {
    assert w == 0x100 * (w / 0x100) + w % 0x100;
    assert w / 0x1_0000 == w / 0x100 / 0x100;
    assert w / 0x100_0000 == w / 0x1_0000 / 0x100;
  }
}
