// Which prefix texts the address assembly completes to an address, and to which
// (source/WanManager/wanmgr_dhcpv6_apis.c; section 2.2 of RFC 4291).

module GlobalAddressLemmas {
  import opened WanTypes
  import opened Text
  import opened GlobalAddress

  // ---- Exactly when the guards let the right texts through ----

  lemma {:induction false} LastIndexAt(s: string, c: char, n: nat, i: nat)
    requires i < n <= |s| && s[i] == c && forall k :: i < k < n ==> s[k] != c
    ensures LastIndexOf(s, c, n) == Some(i)
  {
    if n > i + 1 { LastIndexAt(s, c, n - 1, i); }
  }

  /** A head followed by a slash and a length is accepted on its length and last two places. */
  lemma AcceptsIff(head: string, len: nat)
    requires |head| >= 2
    ensures var prefix := head + "/" + Dec(len);
            Head(prefix) == Some(head) &&
            (Accepts(prefix) <==> len <= 64 && (head[|head| - 1] == ':' || head[|head| - 2] == ':'))
  {
    var prefix := head + "/" + Dec(len);
    forall k | |head| < k < |prefix| ensures prefix[k] != '/' {
      assert IsDigit(Dec(len)[k - |head| - 1]);
    }
    LastIndexAt(prefix, '/', |prefix|, |head|);
    assert prefix[..|head|] == head && prefix[|head| + 1..] == Dec(len);
    AtolOfDec(len);
  }

  lemma FirstPartBeforeColon(a: string)
    requires Shaped(a)
    ensures FirstPart(a + ":") == if Colons(a, |a|) == 3 then a else a + ":"
  {
    DropLast(a);
    ColonsBefore(a, ":", |a| - 1);
    assert Colons(a, |a| - 1) == Colons(a, |a|);
  }

  /** With a single final colon the first part keeps or loses that colon. */
  lemma FirstPartOfSingle(gs: seq<string>)
    requires AllGroups(gs) && gs != []
    ensures FirstPart(Join(gs, ':') + ":") == Join(gs, ':') + if |gs| == 4 then "" else ":"
  {
    GroupsArePieces(gs);
    JoinShaped(gs);
    ColonsOfJoin(gs);
    FirstPartBeforeColon(Join(gs, ':'));
    AppendNothing(Join(gs, ':'));
  }

  lemma JoinGlued(front: seq<string>, last: string, first: string, rest: seq<string>)
    requires front != [] && rest != []
    ensures Join(front + [last], ':') + Join([first] + rest, ':') == Join(front + ([last + first] + rest), ':')
  {
    JoinAppend(front, [last], ':');
    JoinCons(first, rest, ':');
    JoinAppend(front, [last + first] + rest, ':');
    JoinCons(last + first, rest, ':');
    Reglue(Join(front, ':') + ":", last, first, ":" + Join(rest, ':'));
  }

  lemma Reglue(a: string, b: string, c: string, d: string)
    ensures a + b + (c + d) == a + (b + c + d)
  {}

  lemma GluedPieces(front: seq<string>, last: string, first: string, rest: seq<string>)
    requires Pieces(front + [last]) && Pieces([first] + rest)
    ensures Pieces(front + ([last + first] + rest))
  {
    var parts := front + ([last + first] + rest);
    assert (front + [last])[|front|] == last && ([first] + rest)[0] == first;
    forall i | 0 <= i < |parts| ensures parts[i] != "" && Free(parts[i], ':') {
      if i < |front| {
        assert parts[i] == (front + [last])[i];
      } else if i > |front| {
        assert parts[i] == ([first] + rest)[i - |front|];
      }
    }
  }

  /** Groups and four words glued without a colon are one piece too few. */
  lemma ParseGlued(gs: seq<string>, ws: seq<string>)
    requires AllGroups(gs) && AllGroups(ws) && |gs| >= 2 && |gs| != 5 && |ws| == 4
    ensures Parse(Join(gs, ':') + Join(ws, ':')) == None
  {
    var n := |gs| - 1;
    var front, last, first, rest := gs[..n], gs[n], ws[0], ws[1..];
    assert gs == front + [last] && ws == [first] + rest;
    GroupsArePieces(gs);
    GroupsArePieces(ws);
    GluedPieces(front, last, first, rest);
    JoinGlued(front, last, first, rest);
    ParseJoin(front + ([last + first] + rest));
  }

  /** With a last group of one digit the first part is the whole text, or loses that group. */
  lemma FirstPartOfDigit(gs: seq<string>)
    requires AllGroups(gs) && |gs| >= 2 && |gs[|gs| - 1]| == 1
    ensures FirstPart(Join(gs, ':')) == if |gs| == 5 then Join(gs[..4], ':') + ":" else Join(gs, ':')
  {
    var n := |gs| - 1;
    var front, last := gs[..n], gs[n];
    assert gs == front + [last];
    GroupsArePieces(front);
    JoinAppend(front, [last], ':');
    ColonsOfJoin(front);
    ColonsBefore(Join(front, ':'), ":" + last, |Join(front, ':')|);
    CutDigit(Join(front, ':'), last);
  }

  lemma CutDigit(a: string, d: string)
    requires |d| == 1
    ensures var t := a + ":" + d; t == a + (":" + d) && |t| - 2 == |a| && t[..|t| - 1] == a + ":"
  {}

  /** The last groups that a guard looking for one colon lets pass. */
  predicate Passes(gs: seq<string>, tail: string) {
    tail == "::" || (tail == ":" && gs != []) || (tail == "" && |gs| >= 2 && |gs[|gs| - 1]| == 1)
  }

  /** The guard asks for a colon in one of the last two places where both are meant: among the
      texts of groups without an inner "::" that it lets pass, ending in two colons, one colon
      or a group of one digit, the result is an address exactly for two colons after at most
      four groups, which then are the upper half, and for exactly five groups, of which the
      last is lost. */
  lemma AssembledParsesIff(gs: seq<string>, tail: string, mac: string)
    requires AllGroups(gs) && ValidMac(mac) && Passes(gs, tail)
    ensures Parse(FirstPart(Join(gs, ':') + tail) + SecondPart(mac)) ==
            if tail == "::" && |gs| <= 4 then Some(Values(gs) + Zeroes(4 - |gs|) + InterfaceGroups(mac))
            else if tail == "" && |gs| == 5 then Some(Values(gs[..4]) + InterfaceGroups(mac))
            else None
  {
    var ws := SecondPartIsJoin(mac);
    if tail == "::" {
      ParseFirstAndWords(gs, ws);
    } else if tail == ":" {
      SingleColonFails(gs, ws);
    } else {
      AppendNothing(Join(gs, ':'));
      DigitTail(gs, ws);
    }
  }

  lemma SingleColonFails(gs: seq<string>, ws: seq<string>)
    requires AllGroups(gs) && gs != [] && AllGroups(ws) && |ws| == 4
    ensures Parse(FirstPart(Join(gs, ':') + ":") + Join(ws, ':')) == None
  {
    FirstPartOfSingle(gs);
    if |gs| == 4 {
      ParseGlued(gs, ws);
    } else {
      ParseFull(gs, ws);
    }
  }

  lemma DigitTail(gs: seq<string>, ws: seq<string>)
    requires AllGroups(gs) && |gs| >= 2 && |gs[|gs| - 1]| == 1 && AllGroups(ws) && |ws| == 4
    ensures Parse(FirstPart(Join(gs, ':')) + Join(ws, ':')) == if |gs| == 5 then Some(Values(gs[..4]) + Values(ws)) else None
  {
    FirstPartOfDigit(gs);
    if |gs| == 5 {
      ParseFull(gs[..4], ws);
    } else {
      ParseGlued(gs, ws);
    }
  }

  // ---- Every text ----

  /** Groups, each with a colon behind it. */
  predicate Open(parts: seq<string>) {
    parts != [] && LastOf(parts) == "" && AllGroups(parts[..|parts| - 1])
  }

  /** The groups left of a "::" and the pieces right of it, with zeroes for the missing ones. */
  function UpperSides(left: seq<string>, p: seq<string>): (u: Option<seq<nat>>)
    ensures u.Some? ==> |u.value| == 4
  {
    if AllGroups(left) && Open(p) && |left| + |p| <= 4
    then Some(Values(left) + Zeroes(5 - |left| - |p|) + Values(p[..|p| - 1]))
    else None
  }

  /** The upper half of an address that a text begins, if four more groups can end it: four
      groups each followed by a colon, or fewer with one "::" among or behind them. */
  function Upper(f: string): (u: Option<seq<nat>>)
    ensures u.Some? ==> |u.value| == 4
  {
    match FindDouble(f, 0)
    case None =>
      var p := Split(f, ':');
      if |p| == 5 && Open(p) then Some(Values(p[..4])) else None
    case Some(i) =>
      if i + 2 > |f| then None else UpperSides(GroupsOf(f[..i]), Split(f[i + 2..], ':'))
  }

  function Completed(upper: Option<seq<nat>>, lower: seq<nat>): Option<seq<nat>> {
    match upper
    case None => None
    case Some(u) => Some(u + lower)
  }

  lemma {:induction false} FindNoneFrom(s: string, i: nat)
    requires forall j :: i <= j < |s| - 1 ==> !(s[j] == ':' && s[j + 1] == ':')
    ensures FindDouble(s, i) == None
    decreases |s| - i
  {
    if i + 1 < |s| { FindNoneFrom(s, i + 1); }
  }

  /** Groups added behind a text bring no new "::". */
  lemma {:induction false} FindInFirst(f: string, w: string, i: nat)
    requires Shaped(w) && i <= |f|
    ensures FindDouble(f + w, i) == FindDouble(f, i)
    decreases |f| - i
  {
    var s := f + w;
    if i == |f| {
      forall j | i <= j < |s| - 1 ensures !(s[j] == ':' && s[j + 1] == ':') {
        assert s[j] == w[j - i] && s[j + 1] == w[j + 1 - i];
      }
      FindNoneFrom(s, i);
    } else {
      FindInFirst(f, w, i + 1);
    }
  }

  lemma GroupFromPieces(a: string, b: string)
    requires IsGroup(b) && |b| == 4
    ensures IsGroup(a + b) <==> a == ""
  {
    assert a == "" ==> a + b == b;
  }

  /** Four full words behind some pieces make groups exactly if the pieces are open. */
  lemma GlueGroups(p: seq<string>, ws: seq<string>)
    requires p != [] && |ws| == 4 && AllGroups(ws) && |ws[0]| == 4
    ensures AllGroups(Glue(p, ws)) <==> Open(p)
    ensures Open(p) ==> Glue(p, ws) == p[..|p| - 1] + ws
  {
    var n := |p| - 1;
    var g := Glue(p, ws);
    GroupFromPieces(LastOf(p), ws[0]);
    assert g[n] == LastOf(p) + ws[0];
    if AllGroups(g) {
      assert forall i :: 0 <= i < n ==> p[..n][i] == g[i];
    }
    if Open(p) {
      assert g[n] == ws[0];
      assert g == p[..n] + ws;
      assert forall i :: 0 <= i < |g| ==> g[i] == if i < n then p[..n][i] else ws[i - n];
    }
  }

  lemma ValuesConcat(a: seq<string>, b: seq<string>)
    ensures Values(a + b) == Values(a) + Values(b)
  {}

  lemma ReadsFull(f: string, w: string, ws: seq<string>)
    requires FindDouble(f, 0) == None && Shaped(w) && Split(w, ':') == ws
    requires |ws| == 4 && AllGroups(ws) && |ws[0]| == 4
    ensures Parse(f + w) == Completed(Upper(f), Values(ws))
  {
    var p := Split(f, ':');
    FindInFirst(f, w, 0);
    SplitGlue(f, w, ':');
    GlueGroups(p, ws);
    if Open(p) { ValuesConcat(p[..|p| - 1], ws); }
  }

  lemma SidesGlue(left: seq<string>, p: seq<string>, ws: seq<string>)
    requires p != [] && |ws| == 4 && AllGroups(ws) && |ws[0]| == 4
    ensures ParseSides(left, Glue(p, ws)) == Completed(UpperSides(left, p), Values(ws))
  {
    GlueGroups(p, ws);
    if Open(p) { ValuesConcat(p[..|p| - 1], ws); }
    if AllGroups(left) && Open(p) && |left| + |p| <= 4 {
      var l, z, v := Values(left), Zeroes(5 - |left| - |p|), Values(p[..|p| - 1]);
      assert l + z + (v + Values(ws)) == l + z + v + Values(ws);
    }
  }

  lemma {:induction false} FindFacts(s: string, from: nat)
    ensures var r := FindDouble(s, from);
            r.Some? ==> from <= r.value && r.value + 1 < |s| && s[r.value] == ':' && s[r.value + 1] == ':'
                        && forall j :: from <= j < r.value ==> !(s[j] == ':' && s[j + 1] == ':')
    decreases |s| - from
  {
    if from + 1 < |s| { FindFacts(s, from + 1); }
  }

  lemma ReadsDouble(f: string, w: string, ws: seq<string>, i: nat)
    requires FindDouble(f, 0) == Some(i) && Shaped(w) && Split(w, ':') == ws
    requires |ws| == 4 && AllGroups(ws) && |ws[0]| == 4
    ensures Parse(f + w) == Completed(Upper(f), Values(ws))
  {
    FindFacts(f, 0);
    FindInFirst(f, w, 0);
    ParseIsSides(f + w, i);
    UpperIsSides(f, i);
    SlicesOfSum(f, w, i);
    GroupsOfGlued(f[i + 2..], w);
    SidesGlue(GroupsOf(f[..i]), Split(f[i + 2..], ':'), ws);
  }

  lemma UpperIsSides(f: string, i: nat)
    requires FindDouble(f, 0) == Some(i) && i + 2 <= |f|
    ensures Upper(f) == UpperSides(GroupsOf(f[..i]), Split(f[i + 2..], ':'))
  {}

  lemma ParseIsSides(s: string, i: nat)
    requires FindDouble(s, 0) == Some(i) && i + 2 <= |s|
    ensures Parse(s) == ParseSides(GroupsOf(s[..i]), GroupsOf(s[i + 2..]))
  {}

  lemma SlicesOfSum(f: string, w: string, i: nat)
    requires i + 2 <= |f|
    ensures (f + w)[..i] == f[..i] && (f + w)[i + 2..] == f[i + 2..] + w
  {}

  lemma GroupsOfGlued(r: string, w: string)
    requires w != ""
    ensures GroupsOf(r + w) == Glue(Split(r, ':'), Split(w, ':'))
  {
    SplitGlue(r, w, ':');
  }

  /** What the assembled text reads as, for every prefix text whatever: the upper half that the
      first part begins, and the identifier; no address exactly where nothing is begun. */
  lemma AssembledReads(head: string, mac: string)
    requires |head| >= 2 && ValidMac(mac)
    ensures Parse(FirstPart(head) + SecondPart(mac)) == Completed(Upper(FirstPart(head)), InterfaceGroups(mac))
  {
    var f := FirstPart(head);
    var ws := SecondPartIsJoin(mac);
    GroupsArePieces(ws);
    JoinShaped(ws);
    SplitOfJoin(ws, ':');
    match FindDouble(f, 0)
    case None => ReadsFull(f, SecondPart(mac), ws);
    case Some(i) => ReadsDouble(f, SecondPart(mac), ws, i);
  }

  // ---- Accepted texts that are addresses themselves ----

  /** One of the last two characters is a colon. */
  predicate EndsLikeDouble(head: string)
    requires |head| >= 2
  {
    head[|head| - 1] == ':' || head[|head| - 2] == ':'
  }

  /** When the prefix survives: the text ends in "::" after at most four groups; or an inner "::"
      is followed by zero groups only and a last group of one digit, and three colons stand before
      the last two characters. */
  predicate KeepsPrefix(head: string)
    requires |head| >= 2
  {
    match FindDouble(head, 0)
    case None => false
    case Some(i) =>
      i + 2 <= |head| && SidesKept(GroupsOf(head[..i]), GroupsOf(head[i + 2..]), Colons(head, |head| - 2) == 3)
  }

  predicate SidesKept(left: seq<string>, right: seq<string>, cut: bool) {
    if right == [] then |left| <= 4 else cut && ZeroUpToLast(right)
  }

  predicate AllZero(v: seq<nat>) {
    forall k :: 0 <= k < |v| ==> v[k] == 0
  }

  predicate ZeroUpToLast(right: seq<string>) {
    right != [] ==> AllZero(Values(right[..|right| - 1]))
  }

  lemma {:induction false} ColonsOfSplit(s: string)
    ensures |Split(s, ':')| == Colons(s, |s|) + 1
  {
    if s != "" {
      ColonsOfSplit(s[1..]);
      assert s == s[..1] + s[1..];
      ColonsAfter(s[..1], s[1..], |s| - 1);
      assert Colons(s[..1], 1) == if s[0] == ':' then 1 else 0;
    }
  }

  /** Eight full groups are never completed. */
  lemma FullTextFails(head: string)
    requires |head| >= 2 && FindDouble(head, 0) == None && |Split(head, ':')| == 8
    ensures Upper(FirstPart(head)) == None
  {
    ColonsOfSplit(head);
    var n := |head|;
    assert Colons(head, n) <= Colons(head, n - 1) + 1 && Colons(head, n - 1) <= Colons(head, n - 2) + 1;
  }

  lemma GroupsJoin(s: string)
    ensures Join(GroupsOf(s), ':') == s
  {
    if s != "" { JoinOfSplit(s, ':'); }
  }

  lemma TrailingDouble(a: string, mac: string)
    requires AllGroups(GroupsOf(a)) && |GroupsOf(a)| <= 7 && ValidMac(mac)
    ensures Parse(a + "::") == Some(Values(GroupsOf(a)) + Zeroes(8 - |GroupsOf(a)|))
    ensures Parse(FirstPart(a + "::") + SecondPart(mac)) ==
            if |GroupsOf(a)| <= 4 then Some(Values(GroupsOf(a)) + Zeroes(4 - |GroupsOf(a)|) + InterfaceGroups(mac)) else None
  {
    GroupsJoin(a);
    PrefixAddress(GroupsOf(a));
    AssembledParsesIff(GroupsOf(a), "::", mac);
  }

  /** A text that is empty or ends in a colon ends in an empty piece. */
  lemma {:induction false} LastPieceEmpty(c: string)
    requires c == "" || c[|c| - 1] == ':'
    ensures LastOf(Split(c, ':')) == ""
  {
    if c != "" {
      var front := c[..|c| - 1];
      assert c == front + ":";
      SplitGlue(front, ":", ':');
      assert Split(":", ':') == ["", ""] by { assert ":"[1..] == ""; }
    }
  }

  /** A single character behind an empty last piece fills that piece. */
  lemma SplitCut(c: string, d: string)
    requires LastOf(Split(c, ':')) == "" && |d| == 1 && d[0] != ':'
    ensures Split(c + d, ':') == Split(c, ':')[..|Split(c, ':')| - 1] + [d]
  {
    SplitGlue(c, d, ':');
    SplitOfFree(d, ':');
    assert "" + d == d;
  }

  lemma EndsInColon(b: string)
    requires b != "" && b[|b| - 1] == ':'
    ensures !AllGroups(Split(b, ':'))
  {
    LastPieceEmpty(b);
    assert !IsGroup(Split(b, ':')[|Split(b, ':')| - 1]);
  }

  /** An accepted text with groups behind an inner "::" ends in a group of one digit; without
      that digit it ends in an empty piece. */
  lemma DigitBehindDouble(a: string, b: string)
    requires b != "" && AllGroups(Split(b, ':')) && EndsLikeDouble(a + "::" + b)
    ensures var c, d := b[..|b| - 1], b[|b| - 1..];
            && b == c + d && |d| == 1 && d[0] != ':' && LastOf(Split(c, ':')) == ""
            && Split(b, ':') == Split(c, ':')[..|Split(c, ':')| - 1] + [d]
  {
    var head, c, d := a + "::" + b, b[..|b| - 1], b[|b| - 1..];
    if d[0] == ':' { EndsInColon(b); }
    assert head[|head| - 1] == b[|b| - 1];
    if c != "" { assert head[|head| - 2] == c[|c| - 1]; }
    LastPieceEmpty(c);
    assert b == c + d;
    SplitCut(c, d);
  }

  lemma ColonsOfThree(a: string, m: string, b: string)
    ensures Colons(a + m + b, |a| + |m| + |b|) == Colons(a, |a|) + Colons(m, |m|) + Colons(b, |b|)
  {
    ColonsAfter(a, m, |m|);
    ColonsAfter(a + m, b, |b|);
  }

  lemma TwoColons()
    ensures Colons("::", 2) == 2
  {
    assert Colons("::", 1) == 1;
  }

  lemma LastTwoColons(head: string)
    requires |head| >= 2 && EndsLikeDouble(head) && head[|head| - 1] != ':'
    ensures Colons(head, |head|) == Colons(head, |head| - 2) + 1
  {
    assert Colons(head, |head|) == Colons(head, |head| - 1);
  }

  /** Three colons before the last two characters allow four groups in all. */
  lemma GroupsByColons(a: string, b: string, head: string)
    requires head == a + "::" + b && b != "" && b[|b| - 1] != ':' && EndsLikeDouble(head) && Colons(head, |head| - 2) == 3
    ensures |GroupsOf(a)| + |Split(b, ':')| <= 4
  {
    assert Colons(head, |head|) == 4 by {
      assert head[|head| - 1] == b[|b| - 1];
      LastTwoColons(head);
    }
    assert Colons(head, |head|) == Colons(a, |a|) + 2 + Colons(b, |b|) by {
      ColonsOfThree(a, "::", b);
      TwoColons();
    }
    assert |Split(a, ':')| + |Split(b, ':')| == 4 by {
      ColonsOfSplit(a);
      ColonsOfSplit(b);
    }
  }

  /** Where the "::" is found, and what is cut off. */
  lemma UpperOfKept(a: string, b: string)
    requires b != "" && FindDouble(a + "::" + b, 0) == Some(|a|)
    ensures Upper(a + "::" + b) == UpperSides(GroupsOf(a), Split(b, ':'))
  {
    var head := a + "::" + b;
    assert head[..|a|] == a && head[|a| + 2..] == b;
  }

  lemma UpperOfCut(a: string, c: string, d: string, head: string)
    requires head == a + "::" + (c + d) && FindDouble(head, 0) == Some(|a|) && |d| == 1
    ensures Upper(head[..|head| - 1]) == UpperSides(GroupsOf(a), Split(c, ':'))
  {
    var f := a + "::" + c;
    assert head[..|head| - 1] == f;
    FindFacts(head, 0);
    forall j | 0 <= j < |a| ensures !(f[j] == ':' && f[j + 1] == ':') {
      assert f[j] == head[j] && f[j + 1] == head[j + 1];
    }
    FindAt(f, 0, |a|);
    assert f[..|a|] == a && f[|a| + 2..] == c;
  }

  lemma ZeroMiddle(l: seq<nat>, r: seq<nat>, last: nat)
    requires |l| + |r| <= 3
    ensures (l + Zeroes(7 - |l| - |r|) + (r + [last]))[..4] == l + Zeroes(4 - |l| - |r|) + r <==>
            AllZero(r)
  {
    var whole := l + Zeroes(7 - |l| - |r|) + (r + [last]);
    var mine := l + Zeroes(4 - |l| - |r|) + r;
    assert forall k :: 0 <= k < 4 ==> whole[k] == if k < |l| then l[k] else 0;
    assert forall k :: 0 <= k < |r| ==> mine[4 - |r| + k] == r[k];
    if whole[..4] == mine {
      forall k | 0 <= k < |r| ensures r[k] == 0 {
        assert mine[4 - |r| + k] == whole[4 - |r| + k];
      }
    }
  }

  lemma FirstPartKept(head: string)
    requires |head| >= 2 && Colons(head, |head| - 2) != 3
    ensures FirstPart(head) == head
  {}

  lemma SidesClosed(left: seq<string>, p: seq<string>)
    requires p != [] && LastOf(p) != ""
    ensures UpperSides(left, p) == None
  {}

  lemma LastIsGroup(p: seq<string>)
    requires p != [] && AllGroups(p)
    ensures LastOf(p) != ""
  {
    assert IsGroup(p[|p| - 1]);
  }

  lemma InnerKept(a: string, b: string, head: string)
    requires head == a + "::" + b && b != "" && AllGroups(Split(b, ':')) && FindDouble(head, 0) == Some(|a|)
    requires Colons(head, |head| - 2) != 3
    ensures Upper(FirstPart(head)) == None
  {
    assert Upper(head) == None by {
      UpperOfKept(a, b);
      LastIsGroup(Split(b, ':'));
      SidesClosed(GroupsOf(a), Split(b, ':'));
    }
    FirstPartKept(head);
  }

  lemma SidesOpen(left: seq<string>, p: seq<string>)
    requires AllGroups(left) && Open(p) && |left| + |p| <= 4
    ensures UpperSides(left, p) == Some(Values(left) + Zeroes(4 - |left| - (|p| - 1)) + Values(p[..|p| - 1]))
  {}

  lemma FirstPartCut(head: string)
    requires |head| >= 2 && Colons(head, |head| - 2) == 3
    ensures FirstPart(head) == head[..|head| - 1]
  {}

  /** The pieces before the last digit. */
  lemma PiecesBeforeDigit(a: string, b: string, head: string) returns (p: seq<string>)
    requires head == a + "::" + b && b != "" && AllGroups(Split(b, ':')) && EndsLikeDouble(head)
    requires FindDouble(head, 0) == Some(|a|)
    ensures Open(p) && |p| == |Split(b, ':')| && p[..|p| - 1] == Split(b, ':')[..|p| - 1]
    ensures Upper(head[..|head| - 1]) == UpperSides(GroupsOf(a), p)
  {
    var c, d := b[..|b| - 1], b[|b| - 1..];
    p := Split(c, ':');
    assert b == c + d && |d| == 1 && Open(p) && Split(b, ':') == p[..|p| - 1] + [d] by {
      DigitBehindDouble(a, b);
      OpenBeforeDigit(p, d);
    }
    assert Upper(head[..|head| - 1]) == UpperSides(GroupsOf(a), p) by {
      UpperOfCut(a, c, d, head);
    }
  }

  lemma InnerCut(a: string, b: string, head: string)
    requires head == a + "::" + b && b != "" && AllGroups(GroupsOf(a)) && AllGroups(Split(b, ':')) && EndsLikeDouble(head)
    requires FindDouble(head, 0) == Some(|a|) && Colons(head, |head| - 2) == 3
    ensures var left, right := GroupsOf(a), Split(b, ':');
            && |left| + |right| <= 4
            && Upper(FirstPart(head)) == Some(Values(left) + Zeroes(4 - |left| - (|right| - 1)) + Values(right[..|right| - 1]))
  {
    assert |GroupsOf(a)| + |Split(b, ':')| <= 4 by {
      if b[|b| - 1] == ':' { EndsInColon(b); }
      GroupsByColons(a, b, head);
    }
    var p := PiecesBeforeDigit(a, b, head);
    assert FirstPart(head) == head[..|head| - 1] by { FirstPartCut(head); }
    SidesOpen(GroupsOf(a), p);
  }

  lemma OpenBeforeDigit(p: seq<string>, d: string)
    requires p != [] && LastOf(p) == "" && AllGroups(p[..|p| - 1] + [d])
    ensures Open(p)
  {
    var n := |p| - 1;
    forall i | 0 <= i < n ensures IsGroup(p[..n][i]) {
      assert IsGroup((p[..n] + [d])[i]);
    }
  }

  lemma ValuesOfLast(right: seq<string>)
    requires right != []
    ensures Values(right) == Values(right[..|right| - 1]) + [HexValue(LastOf(right), |LastOf(right)|)]
  {}

  lemma SurvivesIff(left: seq<string>, right: seq<string>)
    requires right != [] && |left| + |right| <= 4
    ensures Values(left) + Zeroes(4 - |left| - (|right| - 1)) + Values(right[..|right| - 1]) == UpperOf(left, right) <==>
            ZeroUpToLast(right)
  {
    var r := right[..|right| - 1];
    ValuesOfLast(right);
    ZeroMiddle(Values(left), Values(r), HexValue(LastOf(right), |LastOf(right)|));
  }

  /** The upper half of the address that the text is. */
  function UpperOf(left: seq<string>, right: seq<string>): (u: seq<nat>)
    requires |left| + |right| <= 7
    ensures |u| == 4
  {
    (Values(left) + Zeroes(8 - |left| - |right|) + Values(right))[..4]
  }

  lemma DecideInner(u: Option<seq<nat>>, left: seq<string>, right: seq<string>, cut: bool)
    requires right != [] && |left| + |right| <= 7
    requires cut ==> |left| + |right| <= 4 &&
                     u == Some(Values(left) + Zeroes(4 - |left| - (|right| - 1)) + Values(right[..|right| - 1]))
    requires !cut ==> u == None
    ensures u == Some(UpperOf(left, right)) <==> cut && ZeroUpToLast(right)
  {
    if cut { SurvivesIff(left, right); }
  }

  lemma InnerDoubleIff(a: string, b: string, head: string)
    requires head == a + "::" + b && b != "" && AllGroups(GroupsOf(a)) && AllGroups(Split(b, ':')) && EndsLikeDouble(head)
    requires FindDouble(head, 0) == Some(|a|) && |GroupsOf(a)| + |Split(b, ':')| <= 7
    ensures Upper(FirstPart(head)) == Some(UpperOf(GroupsOf(a), Split(b, ':'))) <==>
            Colons(head, |head| - 2) == 3 && ZeroUpToLast(Split(b, ':'))
  {
    if Colons(head, |head| - 2) == 3 { InnerCut(a, b, head); } else { InnerKept(a, b, head); }
    DecideInner(Upper(FirstPart(head)), GroupsOf(a), Split(b, ':'), Colons(head, |head| - 2) == 3);
  }

  lemma CompletedIff(u: Option<seq<nat>>, v: seq<nat>, lower: seq<nat>)
    requires |v| == 4 && (u.Some? ==> |u.value| == 4)
    ensures Completed(u, lower) == Some(v + lower) <==> u == Some(v)
  {
    if u.Some? && u.value + lower == v + lower {
      assert u.value == (u.value + lower)[..4] == v;
    }
  }

  /** What is asked of the assembled text: the address's own upper half, then the identifier. */
  predicate AssembledIsRight(head: string, mac: string)
    requires |head| >= 2 && Parse(head).Some? && |mac| >= 17
  {
    Parse(FirstPart(head) + SecondPart(mac)) == Some(Parse(head).value[..4] + InterfaceGroups(mac))
  }

  lemma RightIffUpper(head: string, mac: string)
    requires |head| >= 2 && Parse(head).Some? && ValidMac(mac)
    ensures AssembledIsRight(head, mac) <==> Upper(FirstPart(head)) == Some(Parse(head).value[..4])
  {
    AssembledReads(head, mac);
    CompletedIff(Upper(FirstPart(head)), Parse(head).value[..4], InterfaceGroups(mac));
  }

  lemma DecideTrailing(whole: Option<seq<nat>>, got: Option<seq<nat>>, v: seq<nat>, lower: seq<nat>)
    requires |v| <= 7 && whole == Some(v + Zeroes(8 - |v|))
    requires got == if |v| <= 4 then Some(v + Zeroes(4 - |v|) + lower) else None
    ensures got == Some(whole.value[..4] + lower) <==> |v| <= 4
  {
    if |v| <= 4 { assert (v + Zeroes(8 - |v|))[..4] == v + Zeroes(4 - |v|); }
  }

  lemma RightTrailing(a: string, head: string, mac: string)
    requires head == a + "::" && AllGroups(GroupsOf(a)) && |GroupsOf(a)| <= 7 && ValidMac(mac)
    ensures Parse(head).Some?
    ensures Parse(FirstPart(head) + SecondPart(mac)) == Some(Parse(head).value[..4] + InterfaceGroups(mac)) <==> |GroupsOf(a)| <= 4
  {
    TrailingDouble(a, mac);
    DecideTrailing(Parse(head), Parse(FirstPart(head) + SecondPart(mac)), Values(GroupsOf(a)), InterfaceGroups(mac));
  }

  lemma ParseInner(a: string, b: string, head: string)
    requires head == a + "::" + b && FindDouble(head, 0) == Some(|a|)
    ensures Parse(head) == ParseSides(GroupsOf(a), GroupsOf(b))
  {
    ParseIsSides(head, |a|);
    assert head[..|a|] == a && head[|a| + 2..] == b;
  }

  lemma SidesGroups(left: seq<string>, right: seq<string>)
    requires ParseSides(left, right).Some?
    ensures AllGroups(left) && AllGroups(right) && |left| + |right| <= 7
    ensures ParseSides(left, right).value[..4] == UpperOf(left, right)
  {}

  lemma KeepsInner(a: string, b: string, head: string)
    requires head == a + "::" + b && FindDouble(head, 0) == Some(|a|)
    ensures KeepsPrefix(head) <==> SidesKept(GroupsOf(a), GroupsOf(b), Colons(head, |head| - 2) == 3)
  {
    KeepsAt(head, |a|);
    assert head[..|a|] == a && head[|a| + 2..] == b;
  }

  lemma KeepsAt(head: string, i: nat)
    requires i + 2 <= |head| && FindDouble(head, 0) == Some(i)
    ensures KeepsPrefix(head) <==> SidesKept(GroupsOf(head[..i]), GroupsOf(head[i + 2..]), Colons(head, |head| - 2) == 3)
  {}

  lemma RightInner(a: string, b: string, head: string, mac: string)
    requires head == a + "::" + b && b != "" && EndsLikeDouble(head) && ValidMac(mac)
    requires FindDouble(head, 0) == Some(|a|) && Parse(head).Some?
    ensures AssembledIsRight(head, mac) <==> Colons(head, |head| - 2) == 3 && ZeroUpToLast(Split(b, ':'))
  {
    RightIffUpper(head, mac);
    assert Upper(FirstPart(head)) == Some(Parse(head).value[..4]) <==> Colons(head, |head| - 2) == 3 && ZeroUpToLast(Split(b, ':')) by {
      ParseInner(a, b, head);
      SidesGroups(GroupsOf(a), Split(b, ':'));
      InnerDoubleIff(a, b, head);
    }
  }

  lemma RightFull(head: string, mac: string)
    requires |head| >= 2 && FindDouble(head, 0) == None && Parse(head).Some? && ValidMac(mac)
    ensures !AssembledIsRight(head, mac) && !KeepsPrefix(head)
  {
    FullTextFails(head);
    RightIffUpper(head, mac);
  }

  lemma CutAtDouble(head: string, i: nat)
    requires FindDouble(head, 0) == Some(i)
    ensures i + 2 <= |head| && head == head[..i] + "::" + head[i + 2..]
  {
    FindFacts(head, 0);
  }

  /** For every text that is an address and passes the guard, the assembled text is that
      address's upper half followed by the identifier exactly if `KeepsPrefix`. */
  lemma AssembledIsRightIff(head: string, mac: string)
    requires |head| >= 2 && EndsLikeDouble(head) && Parse(head).Some? && ValidMac(mac)
    ensures AssembledIsRight(head, mac) <==> KeepsPrefix(head)
  {
    match FindDouble(head, 0)
    case None => RightFull(head, mac);
    case Some(i) =>
      CutAtDouble(head, i);
      RightWithDouble(head[..i], head[i + 2..], head, mac);
  }

  lemma TrailingIff(a: string, head: string, mac: string)
    requires head == a + "::" && FindDouble(head, 0) == Some(|a|) && Parse(head).Some? && ValidMac(mac)
    ensures AssembledIsRight(head, mac) <==> |GroupsOf(a)| <= 4
  {
    AppendNothing(head);
    ParseInner(a, "", head);
    SidesGroups(GroupsOf(a), []);
    RightTrailing(a, head, mac);
  }

  lemma RightWithDouble(a: string, b: string, head: string, mac: string)
    requires |head| >= 2 && EndsLikeDouble(head) && Parse(head).Some? && ValidMac(mac)
    requires FindDouble(head, 0) == Some(|a|) && head == a + "::" + b
    ensures AssembledIsRight(head, mac) <==> KeepsPrefix(head)
  {
    KeepsInner(a, b, head);
    if b == "" {
      AppendNothing(a + "::");
      TrailingIff(a, head, mac);
    } else {
      RightInner(a, b, head, mac);
    }
  }

  // ---- From the prefix text to the address ----

  /** What the text handed out reads as, for every accepted prefix text, and when it is right. */
  lemma AssignedReads(prefix: string, mac: string)
    requires Accepts(prefix) && ValidMac(mac)
    ensures var head := Head(prefix).value;
            && Parse(Assembled(prefix, mac)) == Completed(Upper(FirstPart(head)), InterfaceGroups(mac))
            && (Parse(head).Some? ==>
                  (Parse(Assembled(prefix, mac)) == Some(Parse(head).value[..4] + InterfaceGroups(mac)) <==> KeepsPrefix(head)))
  {
    var head := Head(prefix).value;
    AssembledReads(head, mac);
    if Parse(head).Some? { AssembledIsRightIff(head, mac); }
  }

  /** From end to end: at most four groups, "::", a slash and a length are accepted exactly up to
      length 64, and the text handed out reads as the prefix groups, zeroes up to the half, and
      the modified EUI-64 of the MAC. */
  lemma AssignedAddress(gs: seq<string>, len: nat, mac: string)
    requires AllGroups(gs) && |gs| <= 4 && ValidMac(mac)
    ensures var prefix := Join(gs, ':') + "::" + "/" + Dec(len);
            && (Accepts(prefix) <==> len <= 64)
            && (len <= 64 ==> Parse(Assembled(prefix, mac)) == Some(Values(gs) + Zeroes(4 - |gs|) + InterfaceGroups(mac)))
  {
    AcceptsIff(Join(gs, ':') + "::", len);
    AssembledAddress(gs, mac);
  }
}
