// Splitting the embedded-address bits of a delegated prefix into the IPv4 suffix and the
// port-set identifier (source/WanManager/wanmgr_net_utils.c; section 5.2 of RFC 7597).

module MapT {
  import opened Bits

  /** `num` bits of a word, the highest of them at position `pos` (shift, then mask). */
  function GetBits(value: nat, pos: int, num: nat): nat
    requires 0 <= pos + 1 - num
  {
    value / Pow2(pos + 1 - num) % Pow2(num)
  }

  lemma DropLow(bytes: seq<Byte>, start: nat, high: nat, low: nat)
    requires start + high + low <= 8 * |bytes|
    ensures Field(bytes, start, high + low) / Pow2(low) == Field(bytes, start, high)
    ensures Field(bytes, start, high + low) % Pow2(low) == Field(bytes, start + high, low)
  {
    FieldConcat(bytes, start, high, low);
    FieldBelow(bytes, start + high, low);
    Quotient(Field(bytes, start, high), Field(bytes, start + high, low), Pow2(low));
  }

  /** Out of a `width`-bit field, `num` bits after the first `skip` are the field there. */
  lemma GetBitsIsField(bytes: seq<Byte>, start: nat, width: nat, skip: nat, num: nat)
    requires start + width <= 8 * |bytes| && skip + num <= width
    ensures GetBits(Field(bytes, start, width), width - 1 - skip, num) == Field(bytes, start + skip, num)
  {
    DropLow(bytes, start, skip + num, width - skip - num);
    DropLow(bytes, start, skip, num);
  }

  lemma PartsOfWord(bytes: seq<Byte>, start: nat, width: nat, word: nat, ipv4Len: nat, psidLen: nat)
    requires start + width <= 8 * |bytes| && ipv4Len + psidLen <= width && word == Field(bytes, start, width)
    ensures GetBits(word, width - 1, ipv4Len) == Field(bytes, start, ipv4Len)
    ensures GetBits(word, width - 1 - ipv4Len, psidLen) == Field(bytes, start + ipv4Len, psidLen)
  {
    GetBitsIsField(bytes, start, width, 0, ipv4Len);
    GetBitsIsField(bytes, start, width, ipv4Len, psidLen);
  }

  /** The shifts are defined: at most two bytes of embedded address, the IPv4 suffix no
      longer than it, all inside the address. */
  predicate Defined(v6Len: nat, pdLen: nat, v4Len: nat) {
    v6Len < pdLen ==> pdLen <= 128 && pdLen - v6Len <= 16 && 0 <= 32 - v4Len <= pdLen - v6Len
  }

  /** The values are the bits from the byte boundary at or before the rule prefix length. */
  method CalculateMAPTPsid(pd: seq<Byte>, v6Len: nat, pdLen: nat, v4Len: nat)
    returns (ok: bool, psid: nat, ipv4Index: nat, psidLen: nat)
    requires |pd| == 16 && Defined(v6Len, pdLen, v4Len)
    ensures ok <==> v6Len < pdLen
    ensures ok ==> psidLen == (pdLen - v6Len) - (32 - v4Len)
    ensures ok ==> ipv4Index == Field(pd, 8 * (v6Len / 8), 32 - v4Len)
    ensures ok ==> psid == Field(pd, 8 * (v6Len / 8) + (32 - v4Len), psidLen)
  {
    psid, ipv4Index, psidLen := 0, 0, 0;
    if pdLen <= v6Len { return false, psid, ipv4Index, psidLen; }
    var len := pdLen - v6Len;
    var ipv4Len := 32 - v4Len;
    psidLen := len - ipv4Len;
    var q := v6Len / 8;
    if len > 8 {
      psid, ipv4Index := SplitTwoBytes(pd, q, ipv4Len, psidLen);
    } else {
      psid, ipv4Index := SplitOneByte(pd, q, ipv4Len, psidLen);
    }
    ok := true;
  }

  method SplitTwoBytes(pd: seq<Byte>, q: nat, ipv4Len: nat, psidLen: nat) returns (psid: nat, ipv4Index: nat)
    requires q + 1 < |pd| && ipv4Len + psidLen <= 16
    ensures ipv4Index == Field(pd, 8 * q, ipv4Len) && psid == Field(pd, 8 * q + ipv4Len, psidLen)
  {
    var psidByte := 256 * (pd[q] as int) + pd[q + 1];
    ipv4Index := GetBits(psidByte, 15, ipv4Len);
    psid := GetBits(psidByte, 15 - ipv4Len, psidLen);
    TwoBytes(pd, q);
    PartsOfWord(pd, 8 * q, 16, psidByte, ipv4Len, psidLen);
  }

  method SplitOneByte(pd: seq<Byte>, q: nat, ipv4Len: nat, psidLen: nat) returns (psid: nat, ipv4Index: nat)
    requires q < |pd| && ipv4Len + psidLen <= 8
    ensures ipv4Index == Field(pd, 8 * q, ipv4Len) && psid == Field(pd, 8 * q + ipv4Len, psidLen)
  {
    var psidByte := pd[q];
    ipv4Index := GetBits(psidByte, 7, ipv4Len);
    psid := GetBits(psidByte, 7 - ipv4Len, psidLen);
    OneByte(pd, q);
    PartsOfWord(pd, 8 * q, 8, psidByte, ipv4Len, psidLen);
  }

  /** What the two values are for, given where their bits are taken from: put together again
      they are `len` bits, each part below its power of two. */
  ghost predicate Splits(pd: seq<Byte>, from: nat, ipv4Len: nat, psidLen: nat, ea: nat)
    requires from + ipv4Len + psidLen <= 8 * |pd|
  {
    var ipv4Index, psid := Field(pd, from, ipv4Len), Field(pd, from + ipv4Len, psidLen);
    ipv4Index * Pow2(psidLen) + psid == ea && ipv4Index < Pow2(ipv4Len) && psid < Pow2(psidLen)
  }

  lemma FieldSplits(pd: seq<Byte>, from: nat, ipv4Len: nat, psidLen: nat)
    requires from + ipv4Len + psidLen <= 8 * |pd|
    ensures Splits(pd, from, ipv4Len, psidLen, Field(pd, from, ipv4Len + psidLen))
  {
    FieldConcat(pd, from, ipv4Len, psidLen);
    FieldBelow(pd, from, ipv4Len);
    FieldBelow(pd, from + ipv4Len, psidLen);
  }

  /** For a rule prefix ending on a byte boundary the two parts are the embedded-address bits
      of the delegated prefix. */
  lemma PartsAreEmbeddedAddress(pd: seq<Byte>, v6Len: nat, pdLen: nat, v4Len: nat)
    requires |pd| == 16 && v6Len < pdLen && Defined(v6Len, pdLen, v4Len) && v6Len % 8 == 0
    ensures Splits(pd, 8 * (v6Len / 8), 32 - v4Len, pdLen - v6Len - (32 - v4Len), Field(pd, v6Len, pdLen - v6Len))
  {
    assert 8 * (v6Len / 8) == v6Len;
    FieldSplits(pd, v6Len, 32 - v4Len, pdLen - v6Len - (32 - v4Len));
  }

  /** The code is right for every delegated prefix exactly when the rule prefix length is a
      multiple of eight. */
  lemma RightForAllPrefixesIff(v6Len: nat, pdLen: nat, v4Len: nat)
    requires v6Len < pdLen && Defined(v6Len, pdLen, v4Len)
    ensures v6Len % 8 == 0 <==>
            forall pd: seq<Byte> :: |pd| == 16 ==>
              Splits(pd, 8 * (v6Len / 8), 32 - v4Len, pdLen - v6Len - (32 - v4Len), Field(pd, v6Len, pdLen - v6Len))
  {
    if v6Len % 8 == 0 {
      forall pd: seq<Byte> | |pd| == 16
        ensures Splits(pd, 8 * (v6Len / 8), 32 - v4Len, pdLen - v6Len - (32 - v4Len), Field(pd, v6Len, pdLen - v6Len))
      {
        PartsAreEmbeddedAddress(pd, v6Len, pdLen, v4Len);
      }
    } else {
      var pd := WrongPrefix(v6Len, pdLen, v4Len);
    }
  }

  lemma {:induction false} FirstBitOfField(bytes: seq<Byte>, start: nat, len: nat)
    requires start + len <= 8 * |bytes| && len > 0 && Bit(bytes, start) == 1
    ensures Field(bytes, start, len) > 0
  {
    if len > 1 { FirstBitOfField(bytes, start, len - 1); }
  }

  /** With only the first bit of the byte set, the code sees it and the true field does not. */
  lemma WrongPrefix(v6Len: nat, pdLen: nat, v4Len: nat) returns (pd: seq<Byte>)
    requires v6Len < pdLen && Defined(v6Len, pdLen, v4Len) && v6Len % 8 != 0
    ensures |pd| == 16
    ensures !Splits(pd, 8 * (v6Len / 8), 32 - v4Len, pdLen - v6Len - (32 - v4Len), Field(pd, v6Len, pdLen - v6Len))
  {
    var q, len := v6Len / 8, pdLen - v6Len;
    pd := OneBitPrefix(q);
    OneBitFields(q, v6Len, len);
    SplitsOnlyInto(pd, 8 * (v6Len / 8), 32 - v4Len, len - (32 - v4Len), len, Field(pd, v6Len, len));
  }

  lemma SplitsOnlyInto(pd: seq<Byte>, from: nat, ipv4Len: nat, psidLen: nat, len: nat, ea: nat)
    requires len == ipv4Len + psidLen && from + len <= 8 * |pd| && ea != Field(pd, from, len)
    ensures !Splits(pd, from, ipv4Len, psidLen, ea)
  {
    FieldConcat(pd, from, ipv4Len, psidLen);
  }

  lemma OneBitFields(q: nat, v6Len: nat, len: nat)
    requires 8 * q < v6Len < v6Len + len <= 128
    ensures Field(OneBitPrefix(q), 8 * q, len) > 0 && Field(OneBitPrefix(q), v6Len, len) == 0
  {
    var pd := OneBitPrefix(q);
    assert Bit(pd, 8 * q) == 1 by { Pow2Of7(); }
    FirstBitOfField(pd, 8 * q, len);
    forall i | v6Len <= i < v6Len + len ensures Bit(pd, i) == 0 {
      LaterBitsAreZero(q, i);
    }
    FieldOfZeroes(pd, v6Len, len);
  }

  function OneBitPrefix(q: nat): (pd: seq<Byte>)
    ensures |pd| == 16
  {
    seq(16, i => if i == q then 128 else 0)
  }

  lemma LaterBitsAreZero(q: nat, i: nat)
    requires 8 * q < i < 128
    ensures Bit(OneBitPrefix(q), i) == 0
  {
    if i / 8 == q { LowBitsOf128(7 - i % 8); }
  }

  lemma Pow2Of7()
    ensures Pow2(7) == 128
  {
    assert Pow2(4) == 16;
  }

  lemma LowBitsOf128(k: nat)
    requires k < 7
    ensures 128 / Pow2(k) % 2 == 0
  {
    assert Pow2(0) == 1 && Pow2(1) == 2 && Pow2(2) == 4 && Pow2(3) == 8;
    assert Pow2(4) == 16 && Pow2(5) == 32 && Pow2(6) == 64;
  }

  // ---- The shared IPv4 address ----

  /** Adds the suffix to the last byte of the rule's IPv4 prefix; from 255 on it subtracts
      255, in a byte variable. */
  function LastByte(last: Byte, ipv4Index: nat): Byte {
    if last + ipv4Index < 255 then last + ipv4Index else (last + ipv4Index - 255) % 256
  }

  function SharedAddress(rule: seq<Byte>, ipv4Index: nat): (shared: seq<Byte>)
    requires |rule| == 4
    ensures |shared| == 4
  {
    rule[3 := LastByte(rule[3], ipv4Index)]
  }

  lemma FourBytes(b: seq<Byte>)
    requires |b| == 4
    ensures Field(b, 0, 32) == 0x1_0000 * (256 * (b[0] as int) + b[1]) + 256 * (b[2] as int) + b[3]
  {
    TwoBytes(b, 0);
    TwoBytes(b, 2);
    FieldConcat(b, 0, 16, 16);
    assert Pow2(16) == 0x1_0000 by { Pow2Of7(); }
  }

  lemma SumIff(rule: seq<Byte>, ipv4Index: nat)
    requires |rule| == 4
    ensures Field(SharedAddress(rule, ipv4Index), 0, 32) == Field(rule, 0, 32) + ipv4Index <==> rule[3] + ipv4Index < 255
    ensures 255 <= rule[3] + ipv4Index < 511 ==> Field(SharedAddress(rule, ipv4Index), 0, 32) == Field(rule, 0, 32) + ipv4Index - 255
  {
    FourBytes(rule);
    FourBytes(SharedAddress(rule, ipv4Index));
    var sum := rule[3] + ipv4Index;
    if sum >= 255 { assert (sum - 255) % 256 <= sum - 255; }
  }

  lemma PartsFromWhole(x: seq<Byte>, v4Len: nat, high: nat, low: nat)
    requires |x| == 4 && v4Len <= 32 && low < Pow2(32 - v4Len)
    ensures Field(x, 0, 32) == high * Pow2(32 - v4Len) + low <==>
            Field(x, 0, v4Len) == high && Field(x, v4Len, 32 - v4Len) == low
  {
    var d := Pow2(32 - v4Len);
    FieldConcat(x, 0, v4Len, 32 - v4Len);
    FieldBelow(x, v4Len, 32 - v4Len);
    Quotient(high, low, d);
    Quotient(Field(x, 0, v4Len), Field(x, v4Len, 32 - v4Len), d);
  }

  /** The address is the rule's prefix bits followed by the suffix (section 5.2 of RFC 7597)
      exactly when the last byte stays below 255; from there on it is the one 255 lower. */
  lemma SharedAddressIff(rule: seq<Byte>, v4Len: nat, ipv4Index: nat)
    requires |rule| == 4 && v4Len <= 32 && Field(rule, v4Len, 32 - v4Len) == 0 && ipv4Index < Pow2(32 - v4Len)
    ensures var shared := SharedAddress(rule, ipv4Index);
            Field(shared, 0, v4Len) == Field(rule, 0, v4Len) && Field(shared, v4Len, 32 - v4Len) == ipv4Index <==>
            rule[3] + ipv4Index < 255
    ensures 255 <= rule[3] + ipv4Index < 511 ==>
              Field(SharedAddress(rule, ipv4Index), 0, 32) == Field(rule, 0, 32) + ipv4Index - 255
  {
    FieldConcat(rule, 0, v4Len, 32 - v4Len);
    PartsFromWhole(SharedAddress(rule, ipv4Index), v4Len, Field(rule, 0, v4Len), ipv4Index);
    SumIff(rule, ipv4Index);
  }
}
