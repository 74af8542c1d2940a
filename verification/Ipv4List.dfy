// Comma-separated lists of IPv4 addresses: the parser that cuts its own input at each comma,
// and the printer (source/WanManager/wanmgr_dhcpv4_internal.c).

module Ipv4List {
  import opened Text

  const DML_DHCP_MAX_ENTRIES := 4
  const INADDR_NONE := 0xFFFF_FFFF

  // ---- Texts in a buffer ----

  /** The text from position `j` up to its terminator. */
  function CStr(s: seq<char>, j: nat): string
    decreases |s| - j
  {
    if j >= |s| || s[j] == '\0' then "" else [s[j]] + CStr(s, j + 1)
  }

  lemma {:induction false} CStrIs(s: seq<char>, j: nat, e: nat)
    requires j <= e <= |s| && (e < |s| ==> s[e] == '\0')
    requires forall k :: j <= k < e ==> s[k] != '\0'
    ensures CStr(s, j) == s[j..e]
    decreases e - j
  {
    if j < e {
      CStrIs(s, j + 1, e);
      assert s[j..e] == [s[j]] + s[j + 1..e];
    }
  }

  /** The buffer holds exactly this text; lengths are unsigned 32-bit numbers. */
  predicate Holds(buf: seq<char>, s: string) {
    |s| < |buf| && |s| < 0x1_0000_0000 && buf[|s|] == '\0' && forall k :: 0 <= k < |s| ==> buf[k] == s[k] != '\0'
  }

  // ---- Parsing ----

  /** Which pieces make an accepted list, `inet` standing for inet_addr: no more pieces than
      entries, every piece before a comma an address, and after the last comma an address of
      at least seven characters, or at most one stray character, which is ignored. */
  ghost predicate AcceptedPieces(inet: string -> nat, parts: seq<string>, max: nat)
    requires parts != []
  {
    var last := parts[|parts| - 1];
    && |parts| <= max
    && (forall i :: 0 <= i < |parts| - 1 ==> inet(parts[i]) != INADDR_NONE)
    && (|last| <= 1 || (|last| >= 7 && inet(last) != INADDR_NONE))
  }

  ghost predicate Accepted(inet: string -> nat, s: string, max: nat) {
    AcceptedPieces(inet, Split(s, ','), max)
  }

  /** The i-th address of an accepted list; zero where there is none. */
  function Entry(inet: string -> nat, parts: seq<string>, i: nat): nat {
    if i >= |parts| || (i == |parts| - 1 && |parts[i]| < 7) then 0 else inet(parts[i])
  }

  /** The scan stands at `i`, the current piece starts at `j`, the pieces before it are done. */
  ghost predicate Reading(parts: seq<string>, s: string, j: nat, i: nat, done: seq<string>) {
    && j <= i <= |s| && (forall k :: j <= k < i ==> s[k] != ',')
    && parts == done + Split(s[j..], ',')
  }

  lemma CutAtComma(s: string, j: nat, i: nat)
    requires j <= i < |s| && s[i] == ',' && forall k :: j <= k < i ==> s[k] != ','
    ensures Split(s[j..], ',') == [s[j..i]] + Split(s[i + 1..], ',')
  {
    var piece, rest := s[j..i], s[i + 1..];
    assert s[j..] == piece + [','] + rest;
    SplitAt(piece, rest, ',');
  }

  lemma CommaCuts(parts: seq<string>, s: string, j: nat, i: nat, done: seq<string>)
    requires Reading(parts, s, j, i, done) && i < |s| && s[i] == ','
    ensures Reading(parts, s, i + 1, i + 1, done + [s[j..i]])
    ensures |parts| >= |done| + 2 && parts[|done|] == s[j..i]
  {
    CutAtComma(s, j, i);
    Shift(done, s[j..i], Split(s[i + 1..], ','));
  }

  lemma Shift(done: seq<string>, piece: string, rest: seq<string>)
    ensures done + ([piece] + rest) == done + [piece] + rest
    ensures (done + ([piece] + rest))[|done|] == piece
  {}

  lemma LastCut(parts: seq<string>, s: string, j: nat, done: seq<string>)
    requires Reading(parts, s, j, |s|, done)
    ensures parts == done + [s[j..]]
  {
    SplitOfFree(s[j..], ',');
  }

  /** The piece of the buffer from `j` to a terminator put at the comma and taken out again. */
  method CutValue(inet: string -> nat, buf: array<char>, j: nat, i: nat, ghost s: string) returns (v: nat)
    requires Holds(buf[..], s) && j <= i < |s| && s[i] == ','
    modifies buf
    ensures buf[..] == old(buf[..])
    ensures v == inet(s[j..i])
  {
    assert buf[i] == ',';
    buf[i] := '\0';
    CStrIs(buf[..], j, i);
    assert buf[..][j..i] == s[j..i];
    v := inet(CStr(buf[..], j));
    buf[i] := ',';
    assert buf[..] == old(buf[..]);
  }

  /** Why the scan stopped, where, and the values read. */
  datatype Scan = Scan(bad: bool, i: nat, j: nat, values: seq<nat>)

  ghost predicate ValuesOf(inet: string -> nat, done: seq<string>, values: seq<nat>) {
    |values| == |done| && forall k :: 0 <= k < |done| ==> values[k] == inet(done[k]) != INADDR_NONE
  }

  /** At a comma: the value of the piece before it, and what has then been read. */
  method ReadPiece(inet: string -> nat, text: array<char>, j: nat, i: nat,
                   ghost s: string, ghost parts: seq<string>, ghost done: seq<string>, values: seq<nat>)
    returns (value: nat)
    requires Holds(text[..], s) && Reading(parts, s, j, i, done) && i < |s| && s[i] == ',' && ValuesOf(inet, done, values)
    modifies text
    ensures text[..] == old(text[..])
    ensures |parts| >= |done| + 2 && value == inet(parts[|done|])
    ensures value != INADDR_NONE ==>
            Reading(parts, s, i + 1, i + 1, done + [s[j..i]]) && ValuesOf(inet, done + [s[j..i]], values + [value])
  {
    CommaCuts(parts, s, j, i, done);
    value := CutValue(inet, text, j, i, s);
  }

  /** How the scan can end: at a piece that is no address, at the comma that fills the table,
      or at the end of the text. */
  ghost predicate Scanned(inet: string -> nat, parts: seq<string>, s: string, max: nat, r: Scan, done: seq<string>) {
    && ValuesOf(inet, done, r.values) && |done| <= max
    && if r.bad then |done| < |parts| - 1 && inet(parts[|done|]) == INADDR_NONE
       else if |done| < max then r.i == |s| && r.j <= r.i && Reading(parts, s, r.j, |s|, done)
       else r.j == r.i + 1 && |parts| > max
  }

  method ScanPieces(inet: string -> nat, text: array<char>, max: nat, ghost s: string, ghost parts: seq<string>)
    returns (r: Scan, ghost done: seq<string>)
    requires Holds(text[..], s) && 0 < max <= DML_DHCP_MAX_ENTRIES && Reading(parts, s, 0, 0, [])
    modifies text
    ensures text[..] == old(text[..])
    ensures Scanned(inet, parts, s, max, r, done)
  {
    var values: seq<nat> := [];
    var i, j := 0, 0;
    done := [];
    while text[i] != '\0'
      invariant i <= |s| && text[..] == old(text[..])
      invariant |done| < max && Reading(parts, s, j, i, done) && ValuesOf(inet, done, values)
      decreases |s| - i
    {
      assert text[..][i] == text[i];
      if text[i] == ',' {
        var value := ReadPiece(inet, text, j, i, s, parts, done, values);
        if value == INADDR_NONE { return Scan(true, i, j, values), done; }
        done := done + [s[j..i]];
        values := values + [value];
        j := i + 1;
        if |values| >= max { return Scan(false, i, j, values), done; }
      }
      i := i + 1;
    }
    assert text[..][i] == text[i];
    r := Scan(false, i, j, values);
  }

  lemma BadPiece(inet: string -> nat, parts: seq<string>, k: nat, max: nat)
    requires k < |parts| - 1 && inet(parts[k]) == INADDR_NONE
    ensures !AcceptedPieces(inet, parts, max)
  {}

  /** With every piece before it an address, the last one decides. */
  lemma LastDecides(inet: string -> nat, parts: seq<string>, s: string, j: nat, done: seq<string>, values: seq<nat>, max: nat)
    requires Reading(parts, s, j, |s|, done) && ValuesOf(inet, done, values) && |done| < max
    ensures AcceptedPieces(inet, parts, max) <==> |s| - j <= 1 || (|s| - j >= 7 && inet(s[j..]) != INADDR_NONE)
    ensures forall k: nat :: k < |done| ==> Entry(inet, parts, k) == values[k]
    ensures Entry(inet, parts, |done|) == if |s| - j >= 7 then inet(s[j..]) else 0
    ensures forall k: nat :: k > |done| ==> Entry(inet, parts, k) == 0
  {
    LastCut(parts, s, j, done);
    PiecesDecide(inet, done, s[j..], max);
  }

  lemma PiecesDecide(inet: string -> nat, done: seq<string>, last: string, max: nat)
    requires (forall k :: 0 <= k < |done| ==> inet(done[k]) != INADDR_NONE) && |done| < max
    ensures AcceptedPieces(inet, done + [last], max) <==> |last| <= 1 || (|last| >= 7 && inet(last) != INADDR_NONE)
  {
    var parts := done + [last];
    assert forall k :: 0 <= k < |done| ==> parts[k] == done[k];
  }

  lemma LastOfText(text: seq<char>, j: nat, s: string)
    requires Holds(text, s) && j <= |s|
    ensures CStr(text, j) == s[j..]
  {
    CStrIs(text, j, |s|);
    assert text[j..|s|] == s[j..];
  }

  method FillEntries(addrs: array<nat>, values: seq<nat>, max: nat)
    requires max <= addrs.Length
    modifies addrs
    ensures forall k :: 0 <= k < max ==> addrs[k] == if k < |values| then values[k] else 0
    ensures forall k :: max <= k < addrs.Length ==> addrs[k] == old(addrs[k])
  {
    var n := 0;
    while n < max
      invariant n <= max
      invariant forall k :: 0 <= k < n ==> addrs[k] == if k < |values| then values[k] else 0
      invariant forall k :: n <= k < addrs.Length ==> addrs[k] == old(addrs[k])
    {
      addrs[n] := if n < |values| then values[n] else 0;
      n := n + 1;
    }
  }

  /** After the loop: the last piece, by its length. */
  method LastValue(inet: string -> nat, text: array<char>, r: Scan, max: nat,
                   ghost s: string, ghost parts: seq<string>, ghost done: seq<string>)
    returns (ok: bool, values: seq<nat>)
    requires Holds(text[..], s) && parts != [] && !r.bad && Scanned(inet, parts, s, max, r, done)
    ensures ok <==> AcceptedPieces(inet, parts, max)
    ensures ok ==> forall k :: 0 <= k < max ==> Entry(inet, parts, k) == if k < |values| then values[k] else 0
  {
    values := r.values;
    // an unsigned difference: it wraps when the scan stopped at a comma
    var left := (r.i - r.j) % 0x1_0000_0000;
    if |values| < max { LastDecides(inet, parts, s, r.j, done, values, max); }
    if |values| < max && left >= 7 {
      LastOfText(text[..], r.j, s);
      var value := inet(CStr(text[..], r.j));
      if value == INADDR_NONE { return false, values; }
      return true, values + [value];
    } else if left > 1 {
      return false, values;
    }
    return true, values;
  }

  /** The text ends up as it was; a rejected list leaves the output untouched, and a list with
      as many commas as entries is rejected, not cut short. */
  method SetIpaddr(inet: string -> nat, addrs: array?<nat>, text: array?<char>, max: nat, ghost s: string) returns (ok: bool)
    requires text != null ==> Holds(text[..], s)
    requires max <= DML_DHCP_MAX_ENTRIES && (addrs != null ==> max <= addrs.Length)
    modifies addrs, text
    ensures text != null ==> text[..] == old(text[..])
    ensures ok <==> addrs != null && text != null && max > 0 && Accepted(inet, s, max)
    ensures ok ==> forall k :: 0 <= k < max ==> addrs[k] == Entry(inet, Split(s, ','), k)
    ensures addrs != null ==> forall k :: (if ok then max else 0) <= k < addrs.Length ==> addrs[k] == old(addrs[k])
  {
    if addrs == null || text == null || max == 0 { return false; }
    ghost var parts := Split(s, ',');
    assert s[0..] == s;
    var r, done := ScanPieces(inet, text, max, s, parts);
    if r.bad {
      BadPiece(inet, parts, |done|, max);
      return false;
    }
    var values;
    ok, values := LastValue(inet, text, r, max, s, parts, done);
    if ok { FillEntries(addrs, values, max); }
  }

  // ---- Printing ----

  /** inet_ntoa; the first byte in memory is the lowest. */
  function Ntoa(w: nat): string {
    Dec(w % 256) + "." + Dec(w / 0x100 % 256) + "." + Dec(w / 0x1_0000 % 256) + "." + Dec(w / 0x100_0000 % 256)
  }

  predicate IsByteText(p: string) {
    p != "" && AllDigits(p) && Value(p) < 256
  }

  /** inet_addr on four decimal parts. */
  function InetAddr(s: string): nat {
    var p := Split(s, '.');
    if |p| == 4 && IsByteText(p[0]) && IsByteText(p[1]) && IsByteText(p[2]) && IsByteText(p[3])
    then Value(p[0]) + 0x100 * Value(p[1]) + 0x1_0000 * Value(p[2]) + 0x100_0000 * Value(p[3])
    else INADDR_NONE
  }

  lemma ByteText(b: nat)
    requires b < 256
    ensures IsByteText(Dec(b)) && Value(Dec(b)) == b && 1 <= |Dec(b)| <= 3
    ensures Free(Dec(b), '.') && Free(Dec(b), ',') && Free(Dec(b), '\0')
  {
    ValueOfDec(b);
    forall k | 0 <= k < |Dec(b)| ensures Dec(b)[k] != '.' && Dec(b)[k] != ',' && Dec(b)[k] != '\0' {
      assert IsDigit(Dec(b)[k]);
    }
    assert |Dec(b / 10 / 10)| == 1;
    assert |Dec(b / 10)| <= 2;
  }

  lemma Bytes(w: nat)
    requires w < 0x1_0000_0000
    ensures w % 256 + 0x100 * (w / 0x100 % 256) + 0x1_0000 * (w / 0x1_0000 % 256) + 0x100_0000 * (w / 0x100_0000 % 256) == w
  {
    var w1, w2, w3 := w / 0x100, w / 0x1_0000, w / 0x100_0000;
    assert w2 == w1 / 256 && w3 == w2 / 256 && w3 < 256;
  }

  /** Reading a printed address gives it back. */
  lemma AddrOfNtoa(w: nat)
    requires w < 0x1_0000_0000
    ensures InetAddr(Ntoa(w)) == w
  {
    var a, b, c, d := w % 256, w / 0x100 % 256, w / 0x1_0000 % 256, w / 0x100_0000 % 256;
    ByteText(a);
    ByteText(b);
    ByteText(c);
    ByteText(d);
    SplitOfJoin([Dec(a), Dec(b), Dec(c), Dec(d)], '.');
    JoinFour(Dec(a), Dec(b), Dec(c), Dec(d), '.');
    Bytes(w);
  }

  lemma DottedPair(a: string, b: string)
    ensures |a + "." + b| == |a| + 1 + |b|
    ensures Free(a, ',') && Free(b, ',') ==> Free(a + "." + b, ',')
    ensures Free(a, '\0') && Free(b, '\0') ==> Free(a + "." + b, '\0')
  {}

  lemma NtoaShape(w: nat)
    ensures 7 <= |Ntoa(w)| <= 15 && Free(Ntoa(w), ',') && Free(Ntoa(w), '\0')
  {
    var a, b, c, d := w % 256, w / 0x100 % 256, w / 0x1_0000 % 256, w / 0x100_0000 % 256;
    ByteText(a);
    ByteText(b);
    ByteText(c);
    ByteText(d);
    DottedPair(Dec(a), Dec(b));
    DottedPair(Dec(a) + "." + Dec(b), Dec(c));
    DottedPair(Dec(a) + "." + Dec(b) + "." + Dec(c), Dec(d));
  }

  /** The first `n` addresses, each with a comma behind it. */
  function Printed(a: seq<nat>, n: nat): string
    requires n <= |a|
  {
    if n == 0 then "" else Printed(a, n - 1) + Ntoa(a[n - 1]) + ","
  }

  /** The same without the last comma. */
  function ListText(a: seq<nat>, n: nat): string
    requires n <= |a|
  {
    if n == 0 then "" else Printed(a, n - 1) + Ntoa(a[n - 1])
  }

  /** The first zero address from `n` on, or `max`. */
  function Leading(a: seq<nat>, max: nat, n: nat): (m: nat)
    requires n <= max <= |a|
    ensures n <= m <= max && (forall k :: n <= k < m ==> a[k] != 0) && (m < max ==> a[m] == 0)
    decreases max - n
  {
    if n < max && a[n] != 0 then Leading(a, max, n + 1) else n
  }

  lemma {:induction false} PrintedShape(a: seq<nat>, n: nat)
    requires n <= |a|
    ensures 8 * n <= |Printed(a, n)| <= 16 * n && Free(Printed(a, n), '\0') && Free(ListText(a, n), '\0')
  {
    if n > 0 {
      PrintedShape(a, n - 1);
      NtoaShape(a[n - 1]);
    }
  }

  // ---- How much room a list takes ----

  /** Decimal digits of a byte. */
  function ByteDigits(b: nat): nat {
    if b < 10 then 1 else if b < 100 then 2 else 3
  }

  /** Decimal digits of the four bytes of an address. */
  function AddressDigits(w: nat): nat {
    ByteDigits(w % 256) + ByteDigits(w / 0x100 % 256) + ByteDigits(w / 0x1_0000 % 256) + ByteDigits(w / 0x100_0000 % 256)
  }

  /** Decimal digits of the first `n` addresses. */
  function TotalDigits(a: seq<nat>, n: nat): (d: nat)
    requires n <= |a|
    ensures d <= 12 * n
  {
    if n == 0 then 0 else TotalDigits(a, n - 1) + AddressDigits(a[n - 1])
  }

  lemma DigitsOfByte(b: nat)
    requires b < 256
    ensures |Dec(b)| == ByteDigits(b)
  {
    if b >= 100 {
      assert |Dec(b / 10 / 10)| == 1;
      assert |Dec(b / 10)| == 2;
    } else if b >= 10 {
      assert |Dec(b / 10)| == 1;
    }
  }

  lemma DigitsOfAddress(w: nat)
    ensures |Ntoa(w)| == AddressDigits(w) + 3
  {
    DigitsOfByte(w % 256);
    DigitsOfByte(w / 0x100 % 256);
    DigitsOfByte(w / 0x1_0000 % 256);
    DigitsOfByte(w / 0x100_0000 % 256);
  }

  /** Three dots and a comma stand beside the digits of each address. */
  lemma {:induction false} PrintedLength(a: seq<nat>, n: nat)
    requires n <= |a|
    ensures |Printed(a, n)| == TotalDigits(a, n) + 4 * n
  {
    if n > 0 {
      PrintedLength(a, n - 1);
      DigitsOfAddress(a[n - 1]);
    }
  }

  /** When the length asked for on failure, 16 * max + 1, is enough: a zero entry ends the
      list, or the addresses of a full table have at least fifteen digits fewer than the twelve
      each could have. */
  predicate RetryFits(a: seq<nat>, max: nat)
    requires max <= |a|
  {
    Leading(a, max, 0) < max || TotalDigits(a, max) + 15 <= 12 * max
  }

  lemma RetryFitsIff(a: seq<nat>, max: nat)
    requires 0 < max <= |a|
    ensures |Printed(a, Leading(a, max, 0))| + 15 < 16 * max + 1 <==> RetryFits(a, max)
  {
    PrintedLength(a, Leading(a, max, 0));
  }

  lemma {:induction false} PrintedGrows(a: seq<nat>, n: nat, m: nat)
    requires n <= m <= |a|
    ensures |Printed(a, n)| <= |Printed(a, m)|
  {
    if n < m { PrintedGrows(a, n, m - 1); }
  }

  /** The buffer is as long as announced, and not filled to its last character by any of the
      lists printed on the way: the original then looks one character too far for the end. */
  ghost predicate HasRoom(length: nat, strLen: nat, a: seq<nat>, m: nat)
    requires m <= |a|
  {
    strLen < length || (strLen == length && forall n :: 1 <= n <= m ==> |Printed(a, n)| != length)
  }

  ghost predicate Zeroed(buf: array<char>, from: nat)
    reads buf
  {
    forall k :: from <= k < buf.Length ==> buf[k] == '\0'
  }

  method StrLen(buf: array<char>, at: nat, ghost e: nat) returns (n: nat)
    requires at <= e < buf.Length && buf[e] == '\0' && forall k :: at <= k < e ==> buf[k] != '\0'
    ensures n == e - at
  {
    n := 0;
    while buf[at + n] != '\0'
      invariant at + n <= e
      decreases e - n
    {
      n := n + 1;
    }
  }

  /** Writes an address, turns its terminator into a comma and steps behind it. */
  method AppendText(buf: array<char>, at: nat, text: string) returns (next: nat)
    requires at + |text| + 1 < buf.Length && Zeroed(buf, at) && Free(text, '\0')
    modifies buf
    ensures next == at + |text| + 1 && buf[..next] == old(buf[..at]) + text + "," && Zeroed(buf, next)
  {
    var i := 0;
    while i < |text|
      invariant i <= |text| && Zeroed(buf, at + i)
      invariant buf[..at + i] == old(buf[..at]) + text[..i]
    {
      buf[at + i] := text[i];
      i := i + 1;
    }
    assert forall k :: 0 <= k < |text| ==> buf[at + k] == buf[..at + i][at + k] == text[k];
    var n := StrLen(buf, at, at + |text|);
    buf[at + n] := ',';
    var m := StrLen(buf, at, at + |text| + 1);
    next := at + m;
  }

  method PrintEntry(buf: array<char>, at: nat, w: nat) returns (next: nat)
    requires at + |Ntoa(w) + ","| < buf.Length && Zeroed(buf, at)
    modifies buf
    ensures next == at + |Ntoa(w) + ","| <= at + 16
    ensures buf[..next] == old(buf[..at]) + Ntoa(w) + "," && Zeroed(buf, next)
  {
    NtoaShape(w);
    next := AppendText(buf, at, Ntoa(w));
  }

  /** The loop: stops at a zero entry, at the end of the table, or with 15 characters left. */
  method PrintEntries(buf: array<char>, strLen: nat, addrs: array<nat>, max: nat) returns (n: nat, at: nat)
    requires max <= addrs.Length && Zeroed(buf, 0) && HasRoom(buf.Length, strLen, addrs[..], Leading(addrs[..], max, 0))
    modifies buf
    ensures n <= Leading(addrs[..], max, 0) && (strLen - at > 15 ==> n == Leading(addrs[..], max, 0))
    ensures at == |Printed(addrs[..], n)| <= strLen && buf[..at] == Printed(addrs[..], n) && Zeroed(buf, at)
    ensures n > 0 ==> at < buf.Length
  {
    ghost var a := addrs[..];
    n, at := 0, 0;
    while n < max && addrs[n] != 0 && strLen - at > 15
      invariant n <= max && Leading(a, max, n) == Leading(a, max, 0)
      invariant at == |Printed(a, n)| <= strLen && buf[..at] == Printed(a, n) && Zeroed(buf, at)
      invariant n > 0 ==> at < buf.Length
    {
      RoomForNext(buf.Length, strLen, a, max, n);
      at := PrintEntry(buf, at, addrs[n]);
      n := n + 1;
    }
  }

  lemma RoomForNext(length: nat, strLen: nat, a: seq<nat>, max: nat, n: nat)
    requires n < max <= |a| && a[n] != 0 && Leading(a, max, n) == Leading(a, max, 0)
    requires HasRoom(length, strLen, a, Leading(a, max, 0)) && |Printed(a, n)| + 15 < strLen
    ensures |Printed(a, n)| + |Ntoa(a[n]) + ","| == |Printed(a, n + 1)| <= strLen && |Printed(a, n + 1)| < length
  {
    NtoaShape(a[n]);
    assert n + 1 <= Leading(a, max, n);
  }

  method CutLastComma(buf: array<char>, at: nat, ghost a: seq<nat>, ghost n: nat)
    requires n <= |a| && at == |Printed(a, n)| <= buf.Length && (n > 0 ==> at < buf.Length)
    requires buf[..at] == Printed(a, n) && Zeroed(buf, at)
    modifies buf
    ensures CStr(buf[..], 0) == ListText(a, n)
  {
    if at != 0 {
      var k := StrLen(buf, at, at);
      assert buf[..at][..at - 1] == ListText(a, n) by { LastComma(a, n); }
      buf[at + k - 1] := '\0';
    }
    if n > 0 { FinalText(buf, a, n, at); }
  }

  /** TRUE exactly when more than 15 characters are left behind the leading non-zero addresses
      and their commas; with the length asked for on failure that is the case exactly when
      `RetryFits`. `count` is how many were written. */
  method GetIpaddrString(buf: array?<char>, strLen: nat, addrs: array?<nat>, max: nat)
    returns (ok: bool, newLen: nat, ghost count: nat)
    requires addrs != null ==> max <= addrs.Length
    requires buf != null && addrs != null ==>
               Zeroed(buf, 0) && HasRoom(buf.Length, strLen, addrs[..], Leading(addrs[..], max, 0))
    modifies buf
    ensures buf == null || addrs == null || max == 0 ==> !ok && newLen == strLen
    ensures buf != null && addrs != null && max > 0 ==>
              var m := Leading(addrs[..], max, 0);
              && (ok <==> TotalDigits(addrs[..], m) + 4 * m + 15 < strLen)
              && (strLen == 16 * max + 1 ==> (ok <==> RetryFits(addrs[..], max)))
              && newLen == (if ok then strLen else 16 * max + 1)
              && count <= m && (ok ==> count == m)
              && CStr(buf[..], 0) == ListText(addrs[..], count)
  {
    count := 0;
    if buf == null || addrs == null || max == 0 { return false, strLen, 0; }
    var n, at := PrintEntries(buf, strLen, addrs, max);
    count := n;
    CutLastComma(buf, at, addrs[..], n);
    PrintedGrows(addrs[..], n, Leading(addrs[..], max, 0));
    PrintedLength(addrs[..], Leading(addrs[..], max, 0));
    RetryFitsIff(addrs[..], max);
    if strLen - at <= 15 { return false, 16 * max + 1, count; }
    return true, strLen, count;
  }

  lemma LastComma(a: seq<nat>, n: nat)
    requires 0 < n <= |a|
    ensures Printed(a, n)[..|Printed(a, n)| - 1] == ListText(a, n)
  {}

  lemma FinalText(buf: array<char>, a: seq<nat>, n: nat, at: nat)
    requires 0 < n <= |a| && 0 < at == |Printed(a, n)| < buf.Length
    requires Zeroed(buf, at - 1) && buf[..at - 1] == ListText(a, n)
    ensures CStr(buf[..], 0) == ListText(a, n)
  {
    PrintedShape(a, n);
    var e := |ListText(a, n)|;
    forall k | 0 <= k < e ensures buf[..][k] != '\0' {
      assert buf[..at - 1][k] == ListText(a, n)[k];
    }
    CStrIs(buf[..], 0, e);
    assert buf[..][0..e] == buf[..e];
  }

  // ---- Parsing what was printed ----

  function Texts(a: seq<nat>, n: nat): (t: seq<string>)
    requires n <= |a|
    ensures |t| == n
  {
    if n == 0 then [] else Texts(a, n - 1) + [Ntoa(a[n - 1])]
  }

  lemma {:induction false} TextsAt(a: seq<nat>, n: nat, k: nat)
    requires k < n <= |a|
    ensures Texts(a, n)[k] == Ntoa(a[k])
  {
    if k < n - 1 { TextsAt(a, n - 1, k); }
  }

  lemma {:induction false} ListIsJoin(a: seq<nat>, n: nat)
    requires 0 < n <= |a|
    ensures ListText(a, n) == Join(Texts(a, n), ',')
  {
    if n == 1 {
      assert Texts(a, 1) == [Ntoa(a[0])];
    } else {
      ListIsJoin(a, n - 1);
      JoinAppend(Texts(a, n - 1), [Ntoa(a[n - 1])], ',');
      assert Printed(a, n - 1) == ListText(a, n - 1) + ",";
    }
  }

  lemma PiecesOfList(a: seq<nat>, n: nat)
    requires n <= |a|
    ensures Split(ListText(a, n), ',') == if n == 0 then [""] else Texts(a, n)
  {
    if n > 0 {
      ListIsJoin(a, n);
      forall k | 0 <= k < n ensures Free(Texts(a, n)[k], ',') {
        TextsAt(a, n, k);
        NtoaShape(a[k]);
      }
      SplitOfJoin(Texts(a, n), ',');
    }
  }

  lemma ListPiece(a: seq<nat>, n: nat, k: nat)
    requires k < n <= |a| && a[k] < 0x1_0000_0000
    ensures k < |Split(ListText(a, n), ',')| == n
    ensures InetAddr(Split(ListText(a, n), ',')[k]) == a[k] && |Split(ListText(a, n), ',')[k]| >= 7
  {
    PiecesOfList(a, n);
    TextsAt(a, n, k);
    AddrOfNtoa(a[k]);
    NtoaShape(a[k]);
  }

  /** Pieces that read as the given values, none of them short. */
  ghost predicate Reads(parts: seq<string>, a: seq<nat>, n: nat)
    requires n <= |a|
  {
    |parts| == n && forall k :: 0 <= k < n ==> InetAddr(parts[k]) == a[k] && |parts[k]| >= 7
  }

  lemma ReadsDecides(parts: seq<string>, a: seq<nat>, n: nat, max: nat)
    requires 0 < n <= |a| && n <= max && Reads(parts, a, n)
    ensures AcceptedPieces(InetAddr, parts, max) <==> forall k :: 0 <= k < n ==> a[k] != INADDR_NONE
    ensures forall k :: 0 <= k < max ==> Entry(InetAddr, parts, k) == if k < n then a[k] else 0
  {
    assert InetAddr(parts[n - 1]) == a[n - 1];
  }

  /** A printed list is accepted exactly when 255.255.255.255 is not in it, and then gives back
      the leading non-zero addresses padded with zeroes. */
  lemma ParseOfPrintedIff(a: seq<nat>, max: nat)
    requires 0 < max <= |a| && forall k :: 0 <= k < |a| ==> a[k] < 0x1_0000_0000
    ensures var m := Leading(a, max, 0); var text := ListText(a, m);
            && (Accepted(InetAddr, text, max) <==> forall k :: 0 <= k < m ==> a[k] != INADDR_NONE)
            && (forall k :: 0 <= k < max ==> Entry(InetAddr, Split(text, ','), k) == if k < m then a[k] else 0)
  {
    var m := Leading(a, max, 0);
    var parts := Split(ListText(a, m), ',');
    PiecesOfList(a, m);
    if m > 0 {
      forall k | 0 <= k < m ensures InetAddr(parts[k]) == a[k] && |parts[k]| >= 7 {
        ListPiece(a, m, k);
      }
      ReadsDecides(parts, a, m, max);
    } else {
      EmptyList(max);
    }
  }

  lemma EmptyList(max: nat)
    requires max > 0
    ensures AcceptedPieces(InetAddr, [""], max) && forall k :: 0 <= k < max ==> Entry(InetAddr, [""], k) == 0
  {}

  // ---- Printing and parsing back ----

  lemma {:induction false} CStrEnds(s: seq<char>, j: nat)
    requires j <= |s|
    ensures var c := CStr(s, j);
            && j + |c| <= |s| && (j + |c| < |s| ==> s[j + |c|] == '\0')
            && forall k :: j <= k < j + |c| ==> c[k - j] == s[k] != '\0'
    decreases |s| - j
  {
    if j < |s| && s[j] != '\0' {
      CStrEnds(s, j + 1);
      var c, rest := CStr(s, j), CStr(s, j + 1);
      forall k | j <= k < j + |c| ensures c[k - j] == s[k] != '\0' {
        if k > j { assert c[k - j] == rest[k - (j + 1)]; }
      }
    }
  }

  /** What a parse gives, when it is known what it accepts and what it reads. */
  method ParseExpected(inet: string -> nat, buf: array<char>, parsed: array<nat>, max: nat,
                       ghost s: string, ghost good: bool, ghost expected: seq<nat>) returns (ok: bool)
    requires Holds(buf[..], s) && 0 < max <= DML_DHCP_MAX_ENTRIES && max <= parsed.Length && |expected| == max
    requires Accepted(inet, s, max) <==> good
    requires forall k :: 0 <= k < max ==> Entry(inet, Split(s, ','), k) == expected[k]
    modifies buf, parsed
    ensures ok == good
    ensures ok ==> parsed[..max] == expected && parsed[max..] == old(parsed[max..])
    ensures !ok ==> parsed[..] == old(parsed[..])
  {
    ok := SetIpaddr(inet, parsed, buf, max, s);
  }

  ghost function Padded(a: seq<nat>, max: nat): (p: seq<nat>)
    requires max <= |a|
    ensures |p| == max && forall k :: 0 <= k < max ==> p[k] == if k < Leading(a, max, 0) then a[k] else 0
  {
    seq(max, k requires 0 <= k < max => if k < Leading(a, max, 0) then a[k] else 0)
  }

  ghost predicate NoNone(a: seq<nat>, m: nat)
    requires m <= |a|
  {
    forall k :: 0 <= k < m ==> a[k] != INADDR_NONE
  }

  method ParsePrinted(buf: array<char>, parsed: array<nat>, max: nat, ghost a: seq<nat>) returns (ok: bool)
    requires 0 < max <= DML_DHCP_MAX_ENTRIES && max <= |a| && max <= parsed.Length
    requires forall k :: 0 <= k < |a| ==> a[k] < 0x1_0000_0000
    requires var m := Leading(a, max, 0);
             CStr(buf[..], 0) == ListText(a, m) && TotalDigits(a, m) + 4 * m + 15 < buf.Length + 1
    modifies buf, parsed
    ensures ok == NoNone(a, Leading(a, max, 0))
    ensures ok ==> parsed[..max] == Padded(a, max) && parsed[max..] == old(parsed[max..])
    ensures !ok ==> parsed[..] == old(parsed[..])
  {
    ghost var m := Leading(a, max, 0);
    PrintedHolds(buf[..], a, m);
    ParseOfPrintedIff(a, max);
    ok := ParseExpected(InetAddr, buf, parsed, max, ListText(a, m), NoNone(a, m), Padded(a, max));
  }

  /** A list that was printed, in the buffer it was printed to, parses to the leading non-zero
      addresses padded with zeroes; it does so exactly if it was short enough to be printed and
      255.255.255.255 is not in it, and otherwise nothing is written. */
  method PrintAndParse(buf: array<char>, strLen: nat, addrs: array<nat>, parsed: array<nat>, max: nat) returns (ok: bool)
    requires 0 < max <= DML_DHCP_MAX_ENTRIES && max <= addrs.Length && max <= parsed.Length && addrs != parsed
    requires forall k :: 0 <= k < addrs.Length ==> addrs[k] < 0x1_0000_0000
    requires Zeroed(buf, 0) && HasRoom(buf.Length, strLen, addrs[..], Leading(addrs[..], max, 0))
    modifies buf, parsed
    ensures var m := Leading(addrs[..], max, 0);
            ok <==> TotalDigits(addrs[..], m) + 4 * m + 15 < strLen && NoNone(addrs[..], m)
    ensures ok ==> parsed[..max] == Padded(addrs[..], max) && parsed[max..] == old(parsed[max..])
    ensures !ok ==> parsed[..] == old(parsed[..])
  {
    ghost var a := addrs[..];
    var newLen;
    ghost var count;
    ok, newLen, count := GetIpaddrString(buf, strLen, addrs, max);
    if ok { ok := ParsePrinted(buf, parsed, max, a); }
  }

  lemma PrintedHolds(buf: seq<char>, a: seq<nat>, m: nat)
    requires m <= |a| && m <= DML_DHCP_MAX_ENTRIES && CStr(buf, 0) == ListText(a, m)
    requires TotalDigits(a, m) + 4 * m + 15 < |buf| + 1
    ensures Holds(buf, ListText(a, m))
  {
    CStrEnds(buf, 0);
    PrintedLength(a, m);
  }
}
