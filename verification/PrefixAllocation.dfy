// One /64 of the delegated prefix per interface name, numbered through byte 7 of the address
// (source/WanManager/wanmgr_dhcpv6_apis.c).

module PrefixAllocation {
  import opened WanTypes
  import opened Text
  import opened Bits

  type Address = a: seq<Byte> | |a| == 16 witness seq(16, i => 0)

  const POS_PREFIX_DELEGATION := 7
  const FIRST_INDEX := 4

  /** The static counter, and the index texts stored in sysevent by interface name. */
  datatype Alloc = Alloc(next: nat, stored: map<string, string>)

  const Start := Alloc(FIRST_INDEX, map[])

  /** Adds an index to byte 7, in an unsigned char; `None` is a text inet_pton rejects. */
  function Calc(global: Option<Address>, index: nat): (r: Option<Address>)
    ensures r.Some? <==> global.Some?
    ensures r.Some? ==> forall i :: 0 <= i < 16 && i != POS_PREFIX_DELEGATION ==> r.value[i] == global.value[i]
    ensures r.Some? ==> (r.value[POS_PREFIX_DELEGATION] - global.value[POS_PREFIX_DELEGATION] - index) % 256 == 0
  {
    match global
    case None => None
    case Some(g) => Some(g[POS_PREFIX_DELEGATION := (g[POS_PREFIX_DELEGATION] + index) % 256])
  }

  /** Nothing stored reads as zero. */
  function IndexOf(st: Alloc, name: string): nat {
    if name in st.stored && st.stored[name] != "" then Atol(st.stored[name]) else 0
  }

  /** One call; a call that fails leaves everything as it was. */
  function Gen(st: Alloc, name: string, global: Option<Address>): (Alloc, Option<Address>) {
    var index := IndexOf(st, name);
    if index == 0 then
      var pref := Calc(global, st.next);
      if pref == None then (st, None)
      else (Alloc(st.next + 1, st.stored[name := Dec(st.next)]), pref)
    else (st, Calc(global, index))
  }

  class Allocator {
    var interfaceNum: nat
    var stored: map<string, string>

    function State(): Alloc reads this {
      Alloc(interfaceNum, stored)
    }

    method GenIPv6Prefix(ifName: Option<string>, global: Option<Address>) returns (pref: Option<Address>)
      modifies this
      ensures ifName == None ==> State() == old(State()) && pref == None
      ensures ifName.Some? ==> (State(), pref) == Gen(old(State()), ifName.value, global)
    {
      if ifName == None { return None; }
      var name := ifName.value;
      var index := 0;
      if name in stored && stored[name] != "" {
        index := Atol(stored[name]);
      }
      if index == 0 {
        pref := Calc(global, interfaceNum);
        if pref == None { return; }
        stored := stored[name := Dec(interfaceNum)];
        interfaceNum := interfaceNum + 1;
      } else {
        pref := Calc(global, index);
      }
    }
  }

  // ---- Any sequence of calls ----

  /** A call: the interface name and the delegated prefix it is made with. */
  type Call = (string, Option<Address>)

  function Run(calls: seq<Call>): Alloc {
    if calls == [] then Start
    else
      var (name, global) := calls[|calls| - 1];
      Gen(Run(calls[..|calls| - 1]), name, global).0
  }

  /** The names in the order of their first successful call. */
  function Names(calls: seq<Call>): seq<string> {
    if calls == [] then []
    else
      var before := Names(calls[..|calls| - 1]);
      var (name, global) := calls[|calls| - 1];
      if global == None || name in before then before else before + [name]
  }

  /** The k-th name has index 4 + k, and nothing else is stored. */
  ghost predicate Listed(st: Alloc, names: seq<string>) {
    && st.next == FIRST_INDEX + |names|
    && (forall k :: 0 <= k < |names| ==> names[k] in st.stored && st.stored[names[k]] == Dec(FIRST_INDEX + k))
    && (forall name :: name in st.stored ==> name in names)
  }

  lemma StepListed(st: Alloc, names: seq<string>, name: string, global: Option<Address>)
    requires Listed(st, names)
    ensures Listed(Gen(st, name, global).0, if global == None || name in names then names else names + [name])
  {
    if name in names {
      var k := ListedIndex(st, names, name);
    }
  }

  lemma ListedAt(st: Alloc, names: seq<string>, k: nat)
    requires Listed(st, names) && k < |names|
    ensures IndexOf(st, names[k]) == FIRST_INDEX + k
  {
    AtolOfDec(FIRST_INDEX + k);
  }

  lemma ListedIndex(st: Alloc, names: seq<string>, name: string) returns (k: nat)
    requires Listed(st, names) && name in names
    ensures k < |names| && names[k] == name && IndexOf(st, name) == FIRST_INDEX + k
  {
    k :| k < |names| && names[k] == name;
    ListedAt(st, names, k);
  }

  lemma {:induction false} RunListed(calls: seq<Call>)
    ensures Listed(Run(calls), Names(calls))
  {
    if calls != [] {
      var front := calls[..|calls| - 1];
      var (name, global) := calls[|calls| - 1];
      RunListed(front);
      StepListed(Run(front), Names(front), name, global);
    }
  }

  lemma {:induction false} NamesPrefix(calls: seq<Call>, more: seq<Call>)
    ensures Names(calls) <= Names(calls + more)
  {
    if more == [] {
      assert calls + more == calls;
    } else {
      NamesPrefix(calls, more[..|more| - 1]);
      assert (calls + more)[..|calls + more| - 1] == calls + more[..|more| - 1];
    }
  }

  /** A name keeps its index, and so its /64, over any further calls. */
  lemma IndexIsStable(calls: seq<Call>, more: seq<Call>, name: string)
    requires name in Names(calls)
    ensures IndexOf(Run(calls + more), name) == IndexOf(Run(calls), name) >= FIRST_INDEX
  {
    RunListed(calls);
    RunListed(calls + more);
    NamesPrefix(calls, more);
    var k := ListedIndex(Run(calls), Names(calls), name);
    assert Names(calls + more)[k] == name;
    ListedAt(Run(calls + more), Names(calls + more), k);
  }

  // ---- What the calls return ----

  /** The answer to a call made after `calls`. */
  function Returned(calls: seq<Call>, name: string, global: Option<Address>): Option<Address> {
    Gen(Run(calls), name, global).1
  }

  /** The names once `name` has been served as well. */
  function NamesWith(calls: seq<Call>, name: string): seq<string> {
    if name in Names(calls) then Names(calls) else Names(calls) + [name]
  }

  lemma NamesWithIs(calls: seq<Call>, name: string, g: Address)
    ensures NamesWith(calls, name) == Names(calls + [(name, Some(g))])
  {
    assert (calls + [(name, Some(g))])[..|calls|] == calls;
  }

  /** `r` is `g` with `i` added to byte 7. */
  predicate Raised(g: Address, i: nat, r: Address) {
    && r[7] == (g[7] + i) % 256
    && forall j :: 0 <= j < 16 && j != 7 ==> r[j] == g[j]
  }

  lemma CalcRaises(g: Address, i: nat)
    ensures Calc(Some(g), i).Some? && Raised(g, i, Calc(Some(g), i).value)
  {
  }

  /** After any calls a call for the k-th name, the first one or a repeated one, returns the
      prefix with 4 + k added to byte 7. */
  lemma ReturnedIs(calls: seq<Call>, name: string, g: Address, k: nat)
    requires k < |NamesWith(calls, name)| && NamesWith(calls, name)[k] == name
    ensures Returned(calls, name, Some(g)).Some? && Raised(g, 4 + k, Returned(calls, name, Some(g)).value)
  {
    RunListed(calls);
    AnswerIs(Run(calls), Names(calls), name, g, k);
  }

  lemma AnswerIs(st: Alloc, names: seq<string>, name: string, g: Address, k: nat)
    requires Listed(st, names)
    requires if name in names then k < |names| && names[k] == name else k == |names|
    ensures Gen(st, name, Some(g)).1.Some? && Raised(g, 4 + k, Gen(st, name, Some(g)).1.value)
  {
    CalcRaises(g, 4 + k);
    if name in names { ListedAt(st, names, k); }
  }

  lemma RaisedIsUnique(g: Address, i: nat, a: Address, b: Address)
    requires Raised(g, i, a) && Raised(g, i, b)
    ensures a == b
  {
    assert forall j :: 0 <= j < 16 ==> a[j] == b[j];
  }

  /** A text that is no prefix gets no answer, and takes no number. */
  lemma MalformedReturnsNone(calls: seq<Call>, name: string)
    ensures Returned(calls, name, None) == None && Run(calls + [(name, None)]) == Run(calls)
  {
    assert (calls + [(name, None)])[..|calls|] == calls;
  }

  lemma NamesGrow(calls: seq<Call>, name: string, g: Address, more: seq<Call>)
    ensures NamesWith(calls, name) <= Names(calls + [(name, Some(g))] + more)
  {
    NamesWithIs(calls, name, g);
    NamesPrefix(calls + [(name, Some(g))], more);
  }

  /** A name that has been served is answered alike ever after, whatever calls come between. */
  lemma RepeatedCallsAgree(calls: seq<Call>, more: seq<Call>, name: string, g: Address)
    ensures Returned(calls, name, Some(g)) == Returned(calls + [(name, Some(g))] + more, name, Some(g))
  {
    var later := calls + [(name, Some(g))] + more;
    var k := if name in Names(calls) then PositionIn(Names(calls), name) else |Names(calls)|;
    NamesGrow(calls, name, g, more);
    assert NamesWith(calls, name)[k] == name && Names(later)[k] == name;
    ReturnedIs(calls, name, g, k);
    ReturnedIs(later, name, g, k);
    RaisedIsUnique(g, 4 + k, Returned(calls, name, Some(g)).value, Returned(later, name, Some(g)).value);
  }

  function PositionIn(names: seq<string>, name: string): (k: nat)
    requires name in names
    ensures k < |names| && names[k] == name
  {
    if names[0] == name then 0 else 1 + PositionIn(names[1..], name)
  }

  /** The /64 of an address: its upper eight bytes. */
  function Subnet(r: Address): seq<Byte> {
    r[..8]
  }

  lemma ByteWraps(p: nat, i: nat, j: nat)
    ensures (p + i) % 256 == (p + j) % 256 <==> i % 256 == j % 256
  {
    assert p + i == 256 * ((p + i) / 256) + (p + i) % 256;
    assert p + j == 256 * ((p + j) / 256) + (p + j) % 256;
  }

  lemma SubnetsEqualIff(g: Address, i: nat, a: Address, j: nat, b: Address)
    requires Raised(g, i, a) && Raised(g, j, b)
    ensures Subnet(a) == Subnet(b) <==> i % 256 == j % 256
  {
    ByteWraps(g[7], i, j);
    assert Subnet(a) == Subnet(b) <==> a[7] == b[7] by {
      assert Subnet(a)[7] == a[7];
      assert Subnet(b)[7] == b[7];
    }
  }

  /** A byte holds numbers below 256 apart. */
  lemma SubnetsDiffer(g: Address, i: nat, a: Address, j: nat, b: Address)
    requires Raised(g, i, a) && Raised(g, j, b) && i != j && i < 256 && j < 256
    ensures Subnet(a) != Subnet(b)
  {
    SubnetsEqualIff(g, i, a, j, b);
  }

  /** The number of a name that has been served, and its answer. */
  lemma Served(calls: seq<Call>, name: string, g: Address) returns (k: nat, r: Address)
    requires name in Names(calls)
    ensures k < |Names(calls)| && Names(calls)[k] == name
    ensures Returned(calls, name, Some(g)) == Some(r) && Raised(g, 4 + k, r)
  {
    k := PositionIn(Names(calls), name);
    ReturnedIs(calls, name, g, k);
    r := Returned(calls, name, Some(g)).value;
  }

  /** `r` lies in the /64 with number `i` below the first one handed out. */
  ghost predicate InReserved(g: Address, r: Address) {
    exists i: nat, a :: i < 4 && Raised(g, i, a) && Subnet(a) == Subnet(r)
  }

  /** After `calls` every name is answered with a /64 of its own, and none with a reserved one. */
  ghost predicate Disjoint(calls: seq<Call>, g: Address) {
    && (forall a, b :: a in Names(calls) && b in Names(calls) && a != b ==> Apart(calls, g, a, b))
    && (forall a :: a in Names(calls) ==> Unreserved(calls, g, a))
  }

  predicate Apart(calls: seq<Call>, g: Address, a: string, b: string) {
    var p, q := Returned(calls, a, Some(g)), Returned(calls, b, Some(g));
    p.Some? && q.Some? && Subnet(p.value) != Subnet(q.value)
  }

  ghost predicate Unreserved(calls: seq<Call>, g: Address, a: string) {
    var p := Returned(calls, a, Some(g));
    p.Some? && !InReserved(g, p.value)
  }

  lemma NamesApart(calls: seq<Call>, g: Address, a: string, b: string)
    requires |Names(calls)| <= 252 && a in Names(calls) && b in Names(calls) && a != b
    ensures Apart(calls, g, a, b)
  {
    var i, p := Served(calls, a, g);
    var j, q := Served(calls, b, g);
    SubnetsDiffer(g, 4 + i, p, 4 + j, q);
  }

  lemma NameUnreserved(calls: seq<Call>, g: Address, a: string)
    requires |Names(calls)| <= 252 && a in Names(calls)
    ensures Unreserved(calls, g, a)
  {
    var k, p := Served(calls, a, g);
    forall i: nat, r | i < 4 && Raised(g, i, r) ensures Subnet(r) != Subnet(p) {
      SubnetsDiffer(g, i, r, 4 + k, p);
    }
  }

  lemma WrapsToFirst(g: Address, r: Address)
    requires Raised(g, 256, r)
    ensures InReserved(g, r)
  {
    assert Raised(g, 0, g);
    SubnetsEqualIff(g, 0, g, 256, r);
  }

  /** The 253rd name gets index 256, which wraps to the first reserved /64. */
  lemma NextNameIsReserved(calls: seq<Call>, g: Address)
    requires |Names(calls)| > 252
    ensures !Disjoint(calls, g)
  {
    var name := Names(calls)[252];
    ReturnedIs(calls, name, g, 252);
    WrapsToFirst(g, Returned(calls, name, Some(g)).value);
    assert name in Names(calls) && !Unreserved(calls, g, name);
  }

  /** This holds exactly while at most 252 names have been served, whatever the prefix. */
  lemma DisjointIff(calls: seq<Call>, g: Address)
    ensures Disjoint(calls, g) <==> |Names(calls)| <= 252
  {
    if |Names(calls)| <= 252 {
      forall a, b | a in Names(calls) && b in Names(calls) && a != b ensures Apart(calls, g, a, b) {
        NamesApart(calls, g, a, b);
      }
      forall a | a in Names(calls) ensures Unreserved(calls, g, a) {
        NameUnreserved(calls, g, a);
      }
    } else {
      NextNameIsReserved(calls, g);
    }
  }
}
