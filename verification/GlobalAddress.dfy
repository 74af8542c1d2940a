// Assembling a global IPv6 address from a prefix text and a MAC address, in a text buffer
// (source/WanManager/wanmgr_dhcpv6_apis.c; sections 2.2 and 2.5.1 and Appendix A of RFC 4291).

module GlobalAddress {
  import opened WanTypes
  import opened Text

  // ---- Hexadecimal digits ----

  predicate IsHex(c: char) {
    '0' <= c <= '9' || 'a' <= c <= 'f' || 'A' <= c <= 'F'
  }

  function Hex(c: char): (n: nat)
    ensures n < 16
  {
    if '0' <= c <= '9' then c as int - '0' as int
    else if 'a' <= c <= 'f' then c as int - 'a' as int + 10
    else if 'A' <= c <= 'F' then c as int - 'A' as int + 10
    else 0
  }

  /** The value of the first `n` digits. */
  function HexValue(s: string, n: nat): nat
    requires n <= |s|
  {
    if n == 0 then 0 else 16 * HexValue(s, n - 1) + Hex(s[n - 1])
  }

  lemma FourDigits(s: string)
    requires |s| == 4
    ensures HexValue(s, 4) == 4096 * Hex(s[0]) + 256 * Hex(s[1]) + 16 * Hex(s[2]) + Hex(s[3])
  {
    assert HexValue(s, 1) == Hex(s[0]);
    assert HexValue(s, 2) == 16 * HexValue(s, 1) + Hex(s[1]);
    assert HexValue(s, 3) == 16 * HexValue(s, 2) + Hex(s[2]);
  }

  /** Exclusive-or with two: turns over the universal/local bit. */
  function Flip(n: nat): nat {
    if n / 2 % 2 == 0 then n + 2 else n - 2
  }

  /** The digit of a value below sixteen. */
  function HexDigit(n: nat): char
    requires n < 16
  {
    if n < 10 then ('0' as int + n) as char else ('A' as int + n - 10) as char
  }

  /** The digits and their values: small and capital letters agree, the k-th digit is worth k,
      the code prints the capital one, and there are no others. */
  lemma HexDigits(k: nat, c: char)
    requires k < 16
    ensures Hex("0123456789abcdef"[k]) == k && Hex("0123456789ABCDEF"[k]) == k
    ensures HexDigit(k) == "0123456789ABCDEF"[k]
    ensures IsHex(c) <==> c in "0123456789abcdefABCDEF"
  {
    var all := "0123456789abcdefABCDEF";
    if '0' <= c <= '9' { assert all[c as int - '0' as int] == c; }
    if 'a' <= c <= 'f' { assert all[c as int - 'a' as int + 10] == c; }
    if 'A' <= c <= 'F' { assert all[c as int - 'A' as int + 16] == c; }
  }

  /** Of a byte, `Flip` turns over the bit worth two and no other. */
  lemma FlipTurnsOneBit(n: nat)
    ensures Flip(n) / 4 == n / 4 && Flip(n) % 2 == n % 2 && Flip(n) / 2 % 2 == 1 - n / 2 % 2
  {
  }

  // ---- The text form of an address (section 2.2 of RFC 4291) ----

  predicate IsGroup(s: string) {
    1 <= |s| <= 4 && forall i :: 0 <= i < |s| ==> IsHex(s[i])
  }

  function Values(parts: seq<string>): (v: seq<nat>)
    ensures |v| == |parts| && forall i :: 0 <= i < |v| ==> v[i] == HexValue(parts[i], |parts[i]|)
  {
    seq(|parts|, i requires 0 <= i < |parts| => HexValue(parts[i], |parts[i]|))
  }

  function Zeroes(n: nat): (z: seq<nat>)
    ensures |z| == n && forall i :: 0 <= i < n ==> z[i] == 0
  {
    seq(n, i => 0)
  }

  predicate AllGroups(parts: seq<string>) {
    forall i :: 0 <= i < |parts| ==> IsGroup(parts[i])
  }

  function GroupsOf(s: string): seq<string> {
    if s == "" then [] else Split(s, ':')
  }

  /** Where the first "::" from position `i` on is. */
  function FindDouble(s: string, i: nat): Option<nat>
    decreases |s| - i
  {
    if i + 1 >= |s| then None
    else if s[i] == ':' && s[i + 1] == ':' then Some(i)
    else FindDouble(s, i + 1)
  }

  /** The groups left and right of a "::", with zeroes for the missing ones. */
  function ParseSides(left: seq<string>, right: seq<string>): (r: Option<seq<nat>>)
    ensures r.Some? ==> |r.value| == 8
  {
    if |left| + |right| <= 7 && AllGroups(left) && AllGroups(right)
    then Some(Values(left) + Zeroes(8 - |left| - |right|) + Values(right))
    else None
  }

  /** Eight groups, or fewer with one "::". */
  function Parse(s: string): (r: Option<seq<nat>>)
    ensures r.Some? ==> |r.value| == 8
  {
    match FindDouble(s, 0)
    case None =>
      var parts := Split(s, ':');
      if |parts| == 8 && AllGroups(parts) then Some(Values(parts)) else None
    case Some(i) =>
      if i + 2 > |s| then None else ParseSides(GroupsOf(s[..i]), GroupsOf(s[i + 2..]))
  }

  // ---- What the code assembles ----

  /** Characters before the last slash. */
  function Head(prefix: string): Option<string> {
    var slash := LastIndexOf(prefix, '/', |prefix|);
    if slash.Some? && slash.value < |prefix| then Some(prefix[..slash.value]) else None
  }

  /** The guards: a slash, a length of at most 64, and a colon in one of the last two places. */
  predicate Accepts(prefix: string) {
    match Head(prefix)
    case None => false
    case Some(head) =>
      Atol(prefix[|head| + 1..]) <= 64 && |head| >= 2 && (head[|head| - 1] == ':' || head[|head| - 2] == ':')
  }

  /** Colons among the first `n` characters. */
  function Colons(s: string, n: nat): nat
    requires n <= |s|
  {
    if n == 0 then 0 else Colons(s, n - 1) + if s[n - 1] == ':' then 1 else 0
  }

  /** One of the two final colons goes when four groups are there. */
  function FirstPart(head: string): string
    requires |head| >= 2
  {
    if Colons(head, |head| - 2) == 3 then head[..|head| - 1] else head
  }

  /** The MAC text with its second digit flipped and FF:FE in the middle. */
  function Expanded(mac: string): (out: string)
    requires |mac| >= 17
    ensures |out| == 23
  {
    var m := mac[..17][1 := HexDigit(Flip(Hex(mac[1])))];
    m[..9] + "FF:FE:" + m[9..]
  }

  /** The first `n` characters without their colons. */
  function Strip(s: string, n: nat): string
    requires n <= |s|
  {
    if n == 0 then "" else if s[n - 1] == ':' then Strip(s, n - 1) else Strip(s, n - 1) + [s[n - 1]]
  }

  function MacDigits(mac: string): string
    requires |mac| >= 17
  {
    Strip(Expanded(mac), 23)
  }

  /** The first `n` digits with a colon after every fourth. */
  function Grouped(t: string, n: nat): string
    requires n <= |t|
  {
    if n == 0 then "" else Grouped(t, n - 1) + [t[n - 1]] + if n % 4 == 0 then ":" else ""
  }

  function SecondPart(mac: string): string
    requires |mac| >= 17
  {
    var g := Grouped(MacDigits(mac), |MacDigits(mac)|);
    if g == "" then "" else g[..|g| - 1]
  }

  // ---- The assembly, in a buffer ----

  /** The text handed out for an accepted prefix. */
  function Assembled(prefix: string, mac: string): string
    requires Accepts(prefix) && |mac| >= 17
  {
    FirstPart(Head(prefix).value) + SecondPart(mac)
  }

  /** What the buffer of 64 characters asks of its caller: the prefix fits, two characters
      stand before the slash when the guard looks at them, and behind an accepted prefix there
      is room for the digits, their colons included. */
  predicate Fits(prefix: string, hwaddr: Option<string>) {
    && |prefix| < 64
    && (Head(prefix).Some? && Atol(prefix[|Head(prefix).value| + 1..]) <= 64 ==> |Head(prefix).value| >= 2)
    && (hwaddr.Some? ==> |hwaddr.value| >= 17)
    && (hwaddr.Some? && Accepts(prefix) ==>
          var digits := |MacDigits(hwaddr.value)|;
          |FirstPart(Head(prefix).value)| + digits + digits / 4 <= 64)
  }

  method AssignGlobalIp(prefix: string, hwaddr: Option<string>) returns (ret: nat, ipAddr: string)
    requires Fits(prefix, hwaddr)
    ensures ret == 0 <==> Accepts(prefix) && hwaddr.Some?
    ensures ret == 0 ==> ipAddr == Assembled(prefix, hwaddr.value)
  {
    var globalIP := new char[64](_ => '\0');
    CopyText(globalIP, prefix);
    var prefixLen := FindSlash(globalIP, |prefix|);
    if prefixLen == 0 { return 1, ""; }
    if Atol(prefix[prefixLen..]) > 64 { return 1, ""; }
    prefixLen := prefixLen - 1;
    ghost var head := prefix[..prefixLen];
    assert Head(prefix) == Some(head);
    assert globalIP[..|prefix|][..prefixLen] == globalIP[..prefixLen];
    assert head[prefixLen - 1] == globalIP[prefixLen - 1] && head[prefixLen - 2] == globalIP[prefixLen - 2];
    if globalIP[prefixLen - 1] != ':' && globalIP[prefixLen - 2] != ':' { return 1, ""; }
    prefixLen := DropColon(globalIP, prefixLen);
    if hwaddr == None { return 1, ""; }
    ipAddr := Finish(globalIP, prefixLen, hwaddr.value);
    ret := 0;
  }

  method CopyText(buf: array<char>, s: string)
    requires |s| < buf.Length
    modifies buf
    ensures buf[..|s|] == s
  {
    var i := 0;
    while i < |s|
      invariant i <= |s| && buf[..i] == s[..i]
    {
      buf[i] := s[i];
      i := i + 1;
    }
  }

  /** One more than the position of the last slash, or zero. */
  method FindSlash(buf: array<char>, len: nat) returns (n: nat)
    requires len <= buf.Length
    ensures n <= len
    ensures LastIndexOf(buf[..len], '/', len) == if n == 0 then None else Some(n - 1)
  {
    n := len;
    while n > 0 && buf[n - 1] != '/'
      invariant n <= len && LastIndexOf(buf[..len], '/', n) == LastIndexOf(buf[..len], '/', len)
    {
      assert buf[..len][n - 1] == buf[n - 1];
      n := n - 1;
    }
    if n > 0 { assert buf[..len][n - 1] == buf[n - 1]; }
  }

  method DropColon(buf: array<char>, len: nat) returns (n: nat)
    requires 2 <= len <= buf.Length
    ensures n <= len && buf[..n] == FirstPart(buf[..len])
  {
    var colons := 0;
    var i := len - 2;
    ghost var head := buf[..len];
    while i > 0
      invariant 0 <= i <= len - 2 && colons + Colons(head, i) == Colons(head, len - 2)
    {
      assert head[i - 1] == buf[i - 1];
      if buf[i - 1] == ':' { colons := colons + 1; }
      i := i - 1;
    }
    n := if colons == 3 then len - 1 else len;
    assert buf[..n] == head[..n];
  }

  /** The buffer is cut before its last character. */
  method Finish(buf: array<char>, start: nat, mac: string) returns (ipAddr: string)
    requires |mac| >= 17 && start + |MacDigits(mac)| + |MacDigits(mac)| / 4 <= buf.Length
    modifies buf
    ensures ipAddr == old(buf[..start]) + SecondPart(mac)
  {
    var n := AppendGrouped(buf, start, Expanded(mac));
    ghost var g := Grouped(MacDigits(mac), |MacDigits(mac)|);
    KeepsFF(mac);
    ipAddr := buf[..n - 1];
    assert buf[..n][..n - 1] == old(buf[..start]) + g[..|g| - 1];
  }

  /** Copies the digits behind the first `start` characters, with a colon after every fourth. */
  method AppendGrouped(buf: array<char>, start: nat, out: string) returns (n: nat)
    requires |out| == 23 && start + |Strip(out, 23)| + |Strip(out, 23)| / 4 <= buf.Length
    modifies buf
    ensures n == start + |Grouped(Strip(out, 23), |Strip(out, 23)|)| <= buf.Length
    ensures buf[..n] == old(buf[..start]) + Grouped(Strip(out, 23), |Strip(out, 23)|)
  {
    ghost var before, t, g := buf[..start], Strip(out, 23), "";
    ghost var k: nat := 0;
    n := start;
    var count := 0;
    var i := 0;
    while i < |out|
      invariant k <= i <= |out| && k == |Strip(out, i)| <= |t| && count == k % 4
      invariant g == Grouped(t, k) && n == start + k + k / 4 && buf[..n] == before + g
    {
      StripAt(out, i, 23);
      if out[i] != ':' {
        Reappend(before, g, [out[i]], if count == 3 then ":" else "");
        n, count := PutDigit(buf, n, count, out[i]);
        k := k + 1;
        g := Grouped(t, k);
      }
      i := i + 1;
    }
    GroupedLength(t, k);
  }

  lemma Reappend(a: string, b: string, c: string, d: string)
    ensures a + b + c + d == a + (b + c + d)
  {}

  method PutDigit(buf: array<char>, at: nat, before: nat, c: char) returns (n: nat, count: nat)
    requires at + 1 + (before + 1) / 4 <= buf.Length && before < 4
    modifies buf
    ensures count == (before + 1) % 4 && n == at + 1 + (before + 1) / 4
    ensures buf[..n] == old(buf[..at]) + [c] + if before == 3 then ":" else ""
  {
    buf[at] := c;
    n := at + 1;
    count := before + 1;
    if count == 4 {
      buf[n] := ':';
      n := n + 1;
      count := 0;
    }
  }

  lemma {:induction false} GroupedLength(t: string, n: nat)
    requires n <= |t|
    ensures |Grouped(t, n)| == n + n / 4
  {
    if n > 0 { GroupedLength(t, n - 1); }
  }

  /** A character that is no colon has its place among the digits. */
  lemma {:induction false} StripAt(s: string, i: nat, n: nat)
    requires i < n <= |s|
    ensures |Strip(s, i + 1)| <= |Strip(s, n)|
    ensures s[i] != ':' ==> |Strip(s, i)| < |Strip(s, n)| && Strip(s, n)[|Strip(s, i)|] == s[i]
  {
    if i + 1 < n { StripAt(s, i, n - 1); }
  }

  lemma KeepsFF(mac: string)
    requires |mac| >= 17
    ensures Grouped(MacDigits(mac), |MacDigits(mac)|) != ""
  {
    assert Expanded(mac)[9] == 'F';
    StripAt(Expanded(mac), 9, 23);
    GroupedLength(MacDigits(mac), |MacDigits(mac)|);
  }

  // ---- Reading texts made of pieces ----

  predicate Pieces(parts: seq<string>) {
    forall i :: 0 <= i < |parts| ==> parts[i] != "" && Free(parts[i], ':')
  }

  /** No two colons in a row. */
  predicate SingleColons(s: string) {
    forall i :: 0 <= i < |s| - 1 ==> !(s[i] == ':' && s[i + 1] == ':')
  }

  lemma {:induction false} FindNone(s: string, i: nat)
    requires SingleColons(s)
    ensures FindDouble(s, i) == None
    decreases |s| - i
  {
    if i + 1 < |s| { FindNone(s, i + 1); }
  }

  lemma {:induction false} FindAt(s: string, i: nat, k: nat)
    requires i <= k && k + 1 < |s| && s[k] == ':' && s[k + 1] == ':'
    requires forall j :: i <= j < k ==> !(s[j] == ':' && s[j + 1] == ':')
    ensures FindDouble(s, i) == Some(k)
    decreases k - i
  {
    if i < k { FindAt(s, i + 1, k); }
  }

  /** Starts and ends with something other than a colon, and has no two in a row. */
  predicate Shaped(s: string) {
    s != "" && s[0] != ':' && s[|s| - 1] != ':' && SingleColons(s)
  }

  lemma ShapedConcat(a: string, b: string)
    requires Shaped(a) && Shaped(b)
    ensures Shaped(a + ":" + b)
  {
    var s := a + ":" + b;
    forall i | 0 <= i < |s| - 1 ensures !(s[i] == ':' && s[i + 1] == ':') {
      if i < |a| - 1 {
        assert s[i] == a[i] && s[i + 1] == a[i + 1];
      } else if i > |a| {
        assert s[i] == b[i - |a| - 1] && s[i + 1] == b[i - |a|];
      }
    }
  }

  lemma {:induction false} JoinShaped(parts: seq<string>)
    requires Pieces(parts) && parts != []
    ensures Shaped(Join(parts, ':'))
  {
    if |parts| > 1 {
      JoinShaped(parts[1..]);
      assert parts == [parts[0]] + parts[1..];
      JoinCons(parts[0], parts[1..], ':');
      ShapedConcat(parts[0], Join(parts[1..], ':'));
    }
  }

  lemma ParseJoin(parts: seq<string>)
    requires Pieces(parts) && parts != []
    ensures Parse(Join(parts, ':')) == if |parts| == 8 && AllGroups(parts) then Some(Values(parts)) else None
  {
    JoinShaped(parts);
    FindNone(Join(parts, ':'), 0);
    SplitOfJoin(parts, ':');
  }

  lemma GroupsOfJoin(parts: seq<string>)
    requires Pieces(parts)
    ensures GroupsOf(Join(parts, ':')) == parts
  {
    if parts != [] {
      JoinShaped(parts);
      SplitOfJoin(parts, ':');
    }
  }

  lemma FindJoint(a: string, b: string)
    requires a == "" || Shaped(a)
    ensures FindDouble(a + "::" + b, 0) == Some(|a|)
  {
    var s := a + "::" + b;
    forall j | 0 <= j < |a| ensures !(s[j] == ':' && s[j + 1] == ':') {
      if j < |a| - 1 { assert s[j] == a[j] && s[j + 1] == a[j + 1]; } else { assert s[j] == a[j]; }
    }
    FindAt(s, 0, |a|);
  }

  lemma ParseAtDouble(a: string, b: string)
    requires a == "" || Shaped(a)
    ensures Parse(a + "::" + b) == ParseSides(GroupsOf(a), GroupsOf(b))
  {
    FindJoint(a, b);
    var s := a + "::" + b;
    assert s[..|a|] == a && s[|a| + 2..] == b;
  }

  lemma ParseDouble(left: seq<string>, right: seq<string>)
    requires Pieces(left) && Pieces(right)
    ensures Parse(Join(left, ':') + "::" + Join(right, ':')) == ParseSides(left, right)
  {
    if left != [] { JoinShaped(left); }
    ParseAtDouble(Join(left, ':'), Join(right, ':'));
    GroupsOfJoin(left);
    GroupsOfJoin(right);
  }

  // ---- The interface identifier ----

  predicate ValidMac(mac: string) {
    |mac| >= 17 && forall i :: 0 <= i < 17 ==> if i % 3 == 2 then mac[i] == ':' else IsHex(mac[i])
  }

  function MacByte(mac: string, k: nat): nat
    requires 3 * k + 1 < |mac|
  {
    16 * Hex(mac[3 * k]) + Hex(mac[3 * k + 1])
  }

  /** The modified EUI-64 identifier (Appendix A of RFC 4291): the universal/local bit of the
      first byte turned over, FF and FE in the middle. */
  function InterfaceId(mac: string): (id: seq<nat>)
    requires |mac| >= 17
    ensures |id| == 8
  {
    [Flip(MacByte(mac, 0)), MacByte(mac, 1), MacByte(mac, 2), 0xFF, 0xFE, MacByte(mac, 3), MacByte(mac, 4), MacByte(mac, 5)]
  }

  function InterfaceGroups(mac: string): seq<nat>
    requires |mac| >= 17
  {
    var id := InterfaceId(mac);
    [256 * id[0] + id[1], 256 * id[2] + id[3], 256 * id[4] + id[5], 256 * id[6] + id[7]]
  }

  /** Pairs of digits with a colon between them lose just the colons. */
  lemma {:induction false} StripPairs(s: string, n: nat)
    requires n > 0 && 3 * n - 1 <= |s|
    requires forall i :: 0 <= i < |s| ==> (s[i] == ':' <==> i % 3 == 2)
    ensures |Strip(s, 3 * n - 1)| == 2 * n
    ensures forall k :: 0 <= k < n ==> Strip(s, 3 * n - 1)[2 * k] == s[3 * k] && Strip(s, 3 * n - 1)[2 * k + 1] == s[3 * k + 1]
  {
    var m := 3 * n - 1;
    assert s[m - 1] != ':' && s[m - 2] != ':';
    assert Strip(s, m) == Strip(s, m - 2) + [s[m - 2]] + [s[m - 1]];
    if n > 1 {
      assert s[m - 3] == ':' && Strip(s, m - 2) == Strip(s, m - 3);
      StripPairs(s, n - 1);
    }
  }

  lemma GroupedFour(t: string, n: nat)
    requires n % 4 == 0 && n + 4 <= |t|
    ensures Grouped(t, n + 4) == Grouped(t, n) + t[n..n + 4] + ":"
  {
    assert Grouped(t, n + 1) == Grouped(t, n) + [t[n]];
    assert Grouped(t, n + 2) == Grouped(t, n + 1) + [t[n + 1]];
    assert Grouped(t, n + 3) == Grouped(t, n + 2) + [t[n + 2]];
    assert Grouped(t, n + 4) == Grouped(t, n + 3) + [t[n + 3]] + ":";
    FourChars(Grouped(t, n), t[n..n + 4], ":");
  }

  lemma FourChars(g: string, q: string, end: string)
    requires |q| == 4
    ensures g + [q[0]] + [q[1]] + [q[2]] + [q[3]] + end == g + q + end
  {
    assert q == [q[0]] + [q[1]] + [q[2]] + [q[3]];
  }

  lemma GroupedWord(t: string, n: nat, before: string, w: string)
    requires n % 4 == 0 && n + 4 <= |t| && w == t[n..n + 4] && Grouped(t, n) == before
    ensures Grouped(t, n + 4) == before + w + ":"
  {
    GroupedFour(t, n);
  }

  lemma GroupedIsJoin(t: string, a: string, b: string, c: string, d: string)
    requires |t| == 16 && a == t[0..4] && b == t[4..8] && c == t[8..12] && d == t[12..16]
    ensures Grouped(t, 16) == Join([a, b, c, d], ':') + ":"
  {
    JoinFour(a, b, c, d, ':');
    GroupedWord(t, 0, "", a);
    assert "" + a == a;
    GroupedWord(t, 4, a + ":", b);
    GroupedWord(t, 8, a + ":" + b + ":", c);
    GroupedWord(t, 12, a + ":" + b + ":" + c + ":", d);
  }

  lemma FlipDigit(c: char)
    ensures Flip(Hex(c)) < 16 && IsHex(HexDigit(Flip(Hex(c)))) && Hex(HexDigit(Flip(Hex(c)))) == Flip(Hex(c))
  {}

  lemma ExpandedAt(mac: string, i: nat)
    requires |mac| >= 17 && i < 23
    ensures |Expanded(mac)| == 23
    ensures Expanded(mac)[i] == if i == 1 then HexDigit(Flip(Hex(mac[1]))) else if i < 9 then mac[i]
                                else if i < 15 then "FF:FE:"[i - 9] else mac[i - 6]
  {}

  lemma ExpandedShape(mac: string)
    requires ValidMac(mac)
    ensures var out := Expanded(mac);
            forall i :: 0 <= i < |out| ==> (out[i] == ':' <==> i % 3 == 2) && (i % 3 != 2 ==> IsHex(out[i]))
  {
    var out := Expanded(mac);
    forall i | 0 <= i < |out| ensures (out[i] == ':' <==> i % 3 == 2) && (i % 3 != 2 ==> IsHex(out[i])) {
      ExpandedAt(mac, i);
      FlipDigit(mac[1]);
    }
  }

  /** The sixteen digits that follow the prefix. */
  lemma DigitsOfExpanded(mac: string)
    requires ValidMac(mac)
    ensures var t := MacDigits(mac);
            |t| == 16 && (forall i :: 0 <= i < 16 ==> IsHex(t[i]))
            && forall k :: 0 <= k < 8 ==> 16 * Hex(t[2 * k]) + Hex(t[2 * k + 1]) == InterfaceId(mac)[k]
  {
    var out := Expanded(mac);
    ExpandedShape(mac);
    StripPairs(out, 8);
    var t := MacDigits(mac);
    forall i | 0 <= i < 16 ensures IsHex(t[i]) {
      assert t[2 * (i / 2)] == out[3 * (i / 2)] && t[2 * (i / 2) + 1] == out[3 * (i / 2) + 1];
      assert i == 2 * (i / 2) || i == 2 * (i / 2) + 1;
    }
    forall k | 0 <= k < 8 ensures 16 * Hex(t[2 * k]) + Hex(t[2 * k + 1]) == InterfaceId(mac)[k] {
      PairAt(mac, k);
    }
  }

  lemma FlipByte(high: nat, low: nat)
    requires low < 16
    ensures Flip(16 * high + low) == 16 * high + Flip(low)
  {
    assert (16 * high + low) / 2 == 8 * high + low / 2;
  }

  lemma PairAt(mac: string, k: nat)
    requires ValidMac(mac) && k < 8
    ensures var out := Expanded(mac); 16 * Hex(out[3 * k]) + Hex(out[3 * k + 1]) == InterfaceId(mac)[k]
  {
    ExpandedAt(mac, 3 * k);
    ExpandedAt(mac, 3 * k + 1);
    FlipDigit(mac[1]);
    FlipByte(Hex(mac[0]), Hex(mac[1]));
    if k == 0 {
    } else if k < 3 {
      assert InterfaceId(mac)[k] == MacByte(mac, k);
    } else if k < 5 {
      assert Hex('F') == 15 && Hex('E') == 14;
    } else {
      assert InterfaceId(mac)[k] == MacByte(mac, k - 2);
    }
  }

  /** Four digits spell two neighbouring bytes of the identifier. */
  lemma WordOfDigits(mac: string, i: nat)
    requires ValidMac(mac) && i < 4 && |MacDigits(mac)| == 16
    ensures var w := MacDigits(mac)[4 * i..4 * i + 4]; IsGroup(w) && HexValue(w, 4) == InterfaceGroups(mac)[i]
  {
    var t := MacDigits(mac);
    var w := t[4 * i..4 * i + 4];
    DigitsOfExpanded(mac);
    FourDigits(w);
    assert w[0] == t[2 * (2 * i)] && w[1] == t[2 * (2 * i) + 1];
    assert w[2] == t[2 * (2 * i + 1)] && w[3] == t[2 * (2 * i + 1) + 1];
  }

  /** What follows the prefix is four groups spelling the identifier. */
  lemma SecondPartIsJoin(mac: string) returns (ws: seq<string>)
    requires ValidMac(mac)
    ensures |ws| == 4 && AllGroups(ws) && SecondPart(mac) == Join(ws, ':') && Values(ws) == InterfaceGroups(mac)
    ensures forall i :: 0 <= i < 4 ==> |ws[i]| == 4
  {
    DigitsOfExpanded(mac);
    var t := MacDigits(mac);
    ws := [t[0..4], t[4..8], t[8..12], t[12..16]];
    assert SecondPart(mac) == Join(ws, ':') by {
      GroupedIsJoin(t, ws[0], ws[1], ws[2], ws[3]);
      DropLast(Join(ws, ':'));
    }
    WordOfDigits(mac, 0);
    WordOfDigits(mac, 1);
    WordOfDigits(mac, 2);
    WordOfDigits(mac, 3);
  }

  lemma DropLast(s: string)
    ensures (s + ":")[..|s + ":"| - 1] == s
  {}

  // ---- The whole address ----

  lemma {:induction false} ColonsBefore(a: string, b: string, n: nat)
    requires n <= |a|
    ensures Colons(a + b, n) == Colons(a, n)
  {
    if n > 0 { ColonsBefore(a, b, n - 1); }
  }

  lemma {:induction false} ColonsAfter(a: string, b: string, n: nat)
    requires n <= |b|
    ensures Colons(a + b, |a| + n) == Colons(a, |a|) + Colons(b, n)
  {
    if n == 0 { ColonsBefore(a, b, |a|); } else { ColonsAfter(a, b, n - 1); }
  }

  lemma {:induction false} ColonsOfFree(s: string, n: nat)
    requires Free(s, ':') && n <= |s|
    ensures Colons(s, n) == 0
  {
    if n > 0 { ColonsOfFree(s, n - 1); }
  }

  lemma {:induction false} ColonsOfJoin(parts: seq<string>)
    requires Pieces(parts) && parts != []
    ensures Colons(Join(parts, ':'), |Join(parts, ':')|) == |parts| - 1
  {
    ColonsOfFree(parts[0], |parts[0]|);
    if |parts| > 1 {
      ColonsOfJoin(parts[1..]);
      ColonsOfSeparated(parts[0], Join(parts[1..], ':'));
    }
  }

  lemma ColonsOfSeparated(a: string, b: string)
    requires Free(a, ':')
    ensures Colons(a + [':'] + b, |a| + 1 + |b|) == 1 + Colons(b, |b|)
  {
    ColonsOfFree(a, |a|);
    ColonsAfter(a, [':'], 1);
    ColonsAfter(a + [':'], b, |b|);
  }

  lemma GroupsArePieces(parts: seq<string>)
    requires AllGroups(parts)
    ensures Pieces(parts)
  {
    forall i | 0 <= i < |parts| ensures Free(parts[i], ':') {
      assert IsGroup(parts[i]);
    }
  }

  lemma FirstPartOfDouble(gs: seq<string>)
    requires AllGroups(gs)
    ensures FirstPart(Join(gs, ':') + "::") == Join(gs, ':') + if |gs| == 4 then ":" else "::"
  {
    var a := Join(gs, ':');
    var head := a + "::";
    assert head[..|head| - 1] == a + ":";
    GroupsArePieces(gs);
    ColonsBefore(a, "::", |a|);
    if gs != [] { ColonsOfJoin(gs); }
  }

  lemma Units(v: seq<nat>, w: seq<nat>)
    ensures v + [] == v && v + Zeroes(0) + w == v + w
  {}

  lemma PrefixAddress(gs: seq<string>)
    requires AllGroups(gs) && |gs| <= 7
    ensures Parse(Join(gs, ':') + "::") == Some(Values(gs) + Zeroes(8 - |gs|))
  {
    GroupsArePieces(gs);
    ParseDouble(gs, []);
    AppendNothing(Join(gs, ':') + "::");
    SidesWithoutRight(gs);
  }

  lemma SidesWithoutRight(gs: seq<string>)
    requires AllGroups(gs) && |gs| <= 7
    ensures ParseSides(gs, []) == Some(Values(gs) + Zeroes(8 - |gs|))
  {
    assert Values([]) == [];
    Units(Values(gs) + Zeroes(8 - |gs|), []);
  }

  lemma SidesWithWords(gs: seq<string>, ws: seq<string>)
    requires AllGroups(gs) && AllGroups(ws) && |ws| == 4
    ensures ParseSides(gs, ws) == if |gs| < 4 then Some(Values(gs) + Zeroes(4 - |gs|) + Values(ws)) else None
  {}

  lemma AppendNothing(s: string)
    ensures s + "" == s
  {}

  lemma JoinFull(gs: seq<string>, ws: seq<string>)
    requires AllGroups(gs) && AllGroups(ws) && gs != [] && ws != []
    ensures Pieces(gs + ws) && AllGroups(gs + ws) && Values(gs + ws) == Values(gs) + Values(ws)
  {
    GroupsArePieces(gs + ws);
  }

  lemma ParseFull(gs: seq<string>, ws: seq<string>)
    requires AllGroups(gs) && AllGroups(ws) && gs != [] && ws != []
    ensures Parse(Join(gs, ':') + ":" + Join(ws, ':')) ==
            if |gs| + |ws| == 8 then Some(Values(gs) + Values(ws)) else None
  {
    JoinFull(gs, ws);
    JoinAppend(gs, ws, ':');
    ParseJoin(gs + ws);
  }

  lemma ParseShort(gs: seq<string>, ws: seq<string>)
    requires AllGroups(gs) && AllGroups(ws) && |ws| == 4
    ensures Parse(Join(gs, ':') + "::" + Join(ws, ':')) ==
            if |gs| < 4 then Some(Values(gs) + Zeroes(4 - |gs|) + Values(ws)) else None
  {
    GroupsArePieces(gs);
    GroupsArePieces(ws);
    SidesWithWords(gs, ws);
    ParseDouble(gs, ws);
  }

  /** The prefix groups, then four words: where the colons go decides what it reads as. */
  lemma ParseFirstAndWords(gs: seq<string>, ws: seq<string>)
    requires AllGroups(gs) && AllGroups(ws) && |ws| == 4
    ensures Parse(FirstPart(Join(gs, ':') + "::") + Join(ws, ':')) ==
            if |gs| <= 4 then Some(Values(gs) + Zeroes(4 - |gs|) + Values(ws)) else None
  {
    FirstPartOfDouble(gs);
    if |gs| == 4 {
      ParseFull(gs, ws);
      Units(Values(gs), Values(ws));
    } else {
      ParseShort(gs, ws);
    }
  }

  /** For at most four groups and "::" the assembled text is an address whose upper half is
      the prefix and whose lower half is the identifier. */
  lemma AssembledAddress(gs: seq<string>, mac: string)
    requires AllGroups(gs) && |gs| <= 4 && ValidMac(mac)
    ensures Parse(Join(gs, ':') + "::") == Some(Values(gs) + Zeroes(8 - |gs|))
    ensures Parse(FirstPart(Join(gs, ':') + "::") + SecondPart(mac)) ==
            Some(Values(gs) + Zeroes(4 - |gs|) + InterfaceGroups(mac))
  {
    PrefixAddress(gs);
    var ws := SecondPartIsJoin(mac);
    ParseFirstAndWords(gs, ws);
  }
}
