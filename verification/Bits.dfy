// Bytes and bit fields of an address, most significant bit first.

module Bits {

  type Byte = x: int | 0 <= x < 256

  function Pow2(n: nat): (r: nat)
    ensures r > 0
  {
    if n == 0 then 1 else 2 * Pow2(n - 1)
  }

  /** Bit `i` of an address, counted from the most significant bit of the first byte. */
  function Bit(bytes: seq<Byte>, i: nat): (b: nat)
    requires i / 8 < |bytes|
    ensures b < 2
  {
    bytes[i / 8] / Pow2(7 - i % 8) % 2
  }

  /** The number written by `len` bits from bit `start` on. */
  function Field(bytes: seq<Byte>, start: nat, len: nat): (v: nat)
    requires start + len <= 8 * |bytes|
  {
    if len == 0 then 0 else 2 * Field(bytes, start, len - 1) + Bit(bytes, start + len - 1)
  }

  lemma {:induction false} FieldBelow(bytes: seq<Byte>, start: nat, len: nat)
    requires start + len <= 8 * |bytes|
    ensures Field(bytes, start, len) < Pow2(len)
  {
    if len > 0 { FieldBelow(bytes, start, len - 1); }
  }

  lemma Doubling(x: nat, d: nat)
    ensures 2 * (x * d) == x * (2 * d)
  {}

  /** Two neighbouring fields make one. */
  lemma {:induction false} FieldConcat(bytes: seq<Byte>, start: nat, a: nat, b: nat)
    requires start + a + b <= 8 * |bytes|
    ensures Field(bytes, start, a + b) == Field(bytes, start, a) * Pow2(b) + Field(bytes, start + a, b)
  {
    if b > 0 {
      FieldConcat(bytes, start, a, b - 1);
      Doubling(Field(bytes, start, a), Pow2(b - 1));
      assert Field(bytes, start, a + b) == 2 * Field(bytes, start, a + b - 1) + Bit(bytes, start + a + b - 1);
    }
  }

  lemma Quotient(high: nat, low: nat, d: nat)
    requires low < d
    ensures (high * d + low) / d == high && (high * d + low) % d == low
  {
    var x := high * d + low;
    var q, r := x / d, x % d;
    DivMod(q, r, d, x);
    if q > high {
      Scale(q - high, d);
      Distribute(q, high, d);
    } else if q < high {
      Scale(high - q, d);
      Distribute(high, q, d);
    }
  }

  lemma DivMod(q: int, r: int, d: nat, x: nat)
    requires d > 0 && q == x / d && r == x % d
    ensures x == q * d + r && 0 <= r < d
  {}

  lemma Scale(k: int, d: nat)
    requires k >= 1
    ensures k * d >= d
  {}

  lemma Distribute(a: int, b: int, d: int)
    ensures (a - b) * d == a * d - b * d
  {}

  lemma DivTwice(x: nat, d: nat)
    requires d > 0
    ensures x / (2 * d) == x / d / 2
  {
    var q := x / d;
    Quotient(q / 2, q % 2 * d + x % d, 2 * d);
    assert q / 2 * (2 * d) + (q % 2 * d + x % d) == x by {
      assert (q / 2 * 2 + q % 2) * d + x % d == x;
      assert q / 2 * (2 * d) == q / 2 * 2 * d;
    }
  }

  lemma {:induction false} ByteField(bytes: seq<Byte>, q: nat, k: nat)
    requires q < |bytes| && k <= 8
    ensures Field(bytes, 8 * q, k) == bytes[q] / Pow2(8 - k)
  {
    if k == 0 {
      assert Pow2(8) == 256 by { assert Pow2(4) == 16; }
    } else {
      ByteField(bytes, q, k - 1);
      DivTwice(bytes[q], Pow2(8 - k));
      assert (8 * q + k - 1) / 8 == q && (8 * q + k - 1) % 8 == k - 1;
    }
  }

  lemma OneByte(bytes: seq<Byte>, q: nat)
    requires q < |bytes|
    ensures Field(bytes, 8 * q, 8) == bytes[q]
  {
    ByteField(bytes, q, 8);
  }

  lemma TwoBytes(bytes: seq<Byte>, q: nat)
    requires q + 1 < |bytes|
    ensures Field(bytes, 8 * q, 16) == 256 * (bytes[q] as int) + bytes[q + 1]
  {
    OneByte(bytes, q);
    OneByte(bytes, q + 1);
    FieldConcat(bytes, 8 * q, 8, 8);
    assert Pow2(8) == 256 by { assert Pow2(4) == 16; }
  }

  lemma {:induction false} FieldOfZeroes(bytes: seq<Byte>, start: nat, len: nat)
    requires start + len <= 8 * |bytes|
    requires forall i :: start <= i < start + len ==> Bit(bytes, i) == 0
    ensures Field(bytes, start, len) == 0
  {
    if len > 0 { FieldOfZeroes(bytes, start, len - 1); }
  }
}
