// The DHCPv4 client table and its copy in the system registry: saving, loading, and what
// repeated saves and loads keep (source/WanManager/wanmgr_dhcpv4_internal.c).

module Dhcpv4Registry {
  import opened WanTypes
  import opened Text

  // ---- Data ----

  /** A list entry: its instance number and what hangs off it. */
  datatype Link<T> = Link(inst: nat, ctx: T)

  /** A request or sent option; `pending` (bNew) means not yet committed to the backend. */
  datatype Opt = Opt(name: string, pending: bool)

  datatype Client = Client(
    name: string, pending: bool,
    req: seq<Link<Opt>>, send: seq<Link<Opt>>, maxReq: nat, maxSend: nat)

  /** The client list and the largest instance number given out. */
  datatype Tree = Tree(clients: seq<Link<Client>>, maxClient: nat)

  datatype RegValue = TextValue(text: string) | FlagValue(flag: bool) | NumberValue(number: nat)

  /** A registry folder: named records, and named sub-folders in order of creation. */
  datatype Folder = Folder(records: map<string, RegValue>, subs: seq<(string, Folder)>)

  const CLIENT := "Client"
  const REQ_OPTION := "ReqOption"
  const SENT_OPTION := "SentOption"
  const NEXT_INSTANCE := "NextInstanceNumber"
  const ALIAS := "Alias"
  const NEW := "bNew"

  const EmptyTree := Tree([], 0)

  // ---- Lists ordered by instance number ----

  ghost predicate Ordered<T>(s: seq<Link<T>>) {
    && (forall i :: 0 <= i < |s| ==> s[i].inst > 0)
    && (forall i, j :: 0 <= i < j < |s| ==> s[i].inst < s[j].inst)
  }

  /** Where a new entry goes: before the first entry with a larger number. */
  function Insert<T>(s: seq<Link<T>>, x: Link<T>): seq<Link<T>> {
    if s == [] then [x]
    else if x.inst < s[0].inst then [x] + s
    else [s[0]] + Insert(s[1..], x)
  }

  lemma {:induction false} InsertAt<T>(s: seq<Link<T>>, x: Link<T>, k: nat)
    requires k <= |s|
    requires forall i :: 0 <= i < k ==> s[i].inst <= x.inst
    requires k < |s| ==> x.inst < s[k].inst
    ensures Insert(s, x) == s[..k] + [x] + s[k..]
  {
    if k == 0 {
      assert s[..0] == [] && s[0..] == s;
    } else {
      InsertAt(s[1..], x, k - 1);
      assert [s[0]] + (s[1..][..k - 1] + [x] + s[1..][k - 1..]) == s[..k] + [x] + s[k..];
    }
  }

  /** Keeps some entries of a list, each changed by `norm`. */
  function Kept<T>(keep: T -> bool, norm: T -> T, s: seq<Link<T>>): seq<Link<T>> {
    if s == [] then []
    else
      var last := s[|s| - 1];
      Kept(keep, norm, s[..|s| - 1]) + if keep(last.ctx) then [Link(last.inst, norm(last.ctx))] else []
  }

  lemma {:induction false} KeptFrom<T>(keep: T -> bool, norm: T -> T, s: seq<Link<T>>, x: Link<T>) returns (i: nat)
    requires x in Kept(keep, norm, s)
    ensures i < |s| && keep(s[i].ctx) && x == Link(s[i].inst, norm(s[i].ctx))
  {
    var front := s[..|s| - 1];
    if x in Kept(keep, norm, front) {
      i := KeptFrom(keep, norm, front, x);
    } else {
      i := |s| - 1;
    }
  }

  lemma {:induction false} KeptHas<T>(keep: T -> bool, norm: T -> T, s: seq<Link<T>>, i: nat)
    requires i < |s| && keep(s[i].ctx)
    ensures Link(s[i].inst, norm(s[i].ctx)) in Kept(keep, norm, s)
  {
    if i < |s| - 1 {
      KeptHas(keep, norm, s[..|s| - 1], i);
    }
  }

  lemma KeptBelow<T>(keep: T -> bool, norm: T -> T, s: seq<Link<T>>, x: nat)
    requires forall i :: 0 <= i < |s| ==> 0 < s[i].inst < x
    ensures forall i :: 0 <= i < |Kept(keep, norm, s)| ==> 0 < Kept(keep, norm, s)[i].inst < x
  {
    forall i | 0 <= i < |Kept(keep, norm, s)| ensures 0 < Kept(keep, norm, s)[i].inst < x {
      var k := Kept(keep, norm, s)[i];
      assert k in Kept(keep, norm, s);
      var j := KeptFrom(keep, norm, s, k);
    }
  }

  lemma {:induction false} KeptOrdered<T>(keep: T -> bool, norm: T -> T, s: seq<Link<T>>)
    requires Ordered(s)
    ensures Ordered(Kept(keep, norm, s))
  {
    if s != [] {
      KeptOrdered(keep, norm, s[..|s| - 1]);
      KeptBelow(keep, norm, s[..|s| - 1], s[|s| - 1].inst);
    }
  }

  /** Nothing is dropped or changed exactly when every entry is kept and unchanged. */
  lemma {:induction false} KeptAllIff<T>(keep: T -> bool, norm: T -> T, s: seq<Link<T>>)
    ensures |Kept(keep, norm, s)| <= |s|
    ensures Kept(keep, norm, s) == s <==> forall i :: 0 <= i < |s| ==> keep(s[i].ctx) && norm(s[i].ctx) == s[i].ctx
  {
    if s != [] {
      var front, last := s[..|s| - 1], s[|s| - 1];
      KeptAllIff(keep, norm, front);
      assert s == front + [last];
      if Kept(keep, norm, s) == s {
        assert keep(last.ctx);
        assert s[|s| - 1] == Link(last.inst, norm(last.ctx));
        assert Kept(keep, norm, front) == s[..|s| - 1];
      }
      if forall i :: 0 <= i < |s| ==> keep(s[i].ctx) && norm(s[i].ctx) == s[i].ctx {
        assert forall i :: 0 <= i < |front| ==> front[i] == s[i];
      }
    }
  }

  lemma KeptSingle<T>(keep: T -> bool, norm: T -> T, x: Link<T>)
    ensures Kept(keep, norm, [x]) == if keep(x.ctx) then [Link(x.inst, norm(x.ctx))] else []
  {
    assert Kept(keep, norm, [x][..0]) == [];
  }

  /** Keeping twice is keeping once with the combined test and change. */
  lemma {:induction false} KeptKept<T>(k1: T -> bool, n1: T -> T, k2: T -> bool, n2: T -> T,
                                       keep: T -> bool, norm: T -> T, s: seq<Link<T>>)
    requires forall i :: 0 <= i < |s| ==> (keep(s[i].ctx) <==> k1(s[i].ctx) && k2(n1(s[i].ctx)))
    requires forall i :: 0 <= i < |s| && keep(s[i].ctx) ==> norm(s[i].ctx) == n2(n1(s[i].ctx))
    ensures Kept(k2, n2, Kept(k1, n1, s)) == Kept(keep, norm, s)
  {
    if s != [] {
      var front, last := s[..|s| - 1], s[|s| - 1];
      assert forall i :: 0 <= i < |front| ==> front[i] == s[i];
      KeptKept(k1, n1, k2, n2, keep, norm, front);
      if k1(last.ctx) {
        assert Kept(k1, n1, s)[..|Kept(k1, n1, s)| - 1] == Kept(k1, n1, front);
      } else {
        assert Kept(k1, n1, s) == Kept(k1, n1, front);
      }
    }
  }

  // ---- What a save keeps ----

  function Uint32(n: nat): nat { n % 0x1_0000_0000 }

  predicate IsPending(o: Opt) { o.pending }

  function SameOpt(o: Opt): Opt { o }

  function PendingOf(os: seq<Link<Opt>>): seq<Link<Opt>> {
    Kept(IsPending, SameOpt, os)
  }

  /** A client that is committed, childless and without maxima is not saved. */
  predicate IsSaved(c: Client) {
    c.pending || c.req != [] || c.send != [] || c.maxSend != 0 || c.maxReq != 0
  }

  /** Only pending options are saved; a maximum is saved only if its list is not empty, in a
      32-bit record. */
  function PruneClient(c: Client): Client {
    c.(req := PendingOf(c.req), send := PendingOf(c.send),
       maxReq := if c.req == [] then 0 else Uint32(c.maxReq),
       maxSend := if c.send == [] then 0 else Uint32(c.maxSend))
  }

  function Prune(t: Tree): Tree {
    Tree(Kept(IsSaved, PruneClient, t.clients), Uint32(t.maxClient))
  }

  // ---- Folders ----

  function OptFolder(o: Opt): Folder {
    Folder(map[ALIAS := TextValue(o.name), NEW := FlagValue(o.pending)], [])
  }

  /** One sub-folder per kept entry, named by its instance number. */
  function SaveLinks<T>(keep: T -> bool, make: T -> Folder, s: seq<Link<T>>): seq<(string, Folder)> {
    if s == [] then []
    else
      var last := s[|s| - 1];
      SaveLinks(keep, make, s[..|s| - 1]) + if keep(last.ctx) then [(Dec(last.inst), make(last.ctx))] else []
  }

  function MaxRecord(max: nat): map<string, RegValue> {
    map[NEXT_INSTANCE := NumberValue(Uint32(max))]
  }

  function OptListFolder(os: seq<Link<Opt>>, max: nat): Folder {
    Folder(MaxRecord(max), SaveLinks(IsPending, OptFolder, os))
  }

  function ListSub(name: string, os: seq<Link<Opt>>, max: nat): seq<(string, Folder)> {
    if os == [] then [] else [(name, OptListFolder(os, max))]
  }

  function ClientFolder(c: Client): Folder {
    Folder(map[ALIAS := TextValue(c.name), NEW := FlagValue(c.pending)],
           ListSub(REQ_OPTION, c.req, c.maxReq) + ListSub(SENT_OPTION, c.send, c.maxSend))
  }

  /** The registry folder that describes a tree. */
  function Saved(t: Tree): Folder {
    Folder(map[], [(CLIENT, Folder(MaxRecord(t.maxClient), SaveLinks(IsSaved, ClientFolder, t.clients)))])
  }

  // ---- Reading folders ----

  /** The first sub-folder of that name. */
  function Sub(subs: seq<(string, Folder)>, name: string): Option<Folder> {
    if subs == [] then None
    else if subs[0].0 == name then Some(subs[0].1)
    else Sub(subs[1..], name)
  }

  function TextOf(f: Folder, key: string): string {
    if key in f.records && f.records[key].TextValue? then f.records[key].text else ""
  }

  /** A missing flag reads as true. */
  function FlagOf(f: Folder, key: string): bool {
    if key in f.records && f.records[key].FlagValue? then f.records[key].flag else true
  }

  /** A missing maximum leaves the old one. */
  function MaxOf(f: Folder, before: nat): nat {
    if NEXT_INSTANCE in f.records && f.records[NEXT_INSTANCE].NumberValue? then f.records[NEXT_INSTANCE].number
    else before
  }

  /** Pushes what is read from the first `n` sub-folders into a list; a sub-folder whose name
      is no positive number is skipped. */
  function ReadLinks<T>(read: Folder -> T, subs: seq<(string, Folder)>, n: nat, into: seq<Link<T>>): seq<Link<T>>
    requires n <= |subs|
  {
    if n == 0 then into
    else
      var before := ReadLinks(read, subs, n - 1, into);
      var name := subs[n - 1].0;
      var found := Sub(subs, name);
      if Atol(name) == 0 || found == None then before
      else Insert(before, Link(Atol(name), read(found.value)))
  }

  function ReadOpt(f: Folder): Opt {
    Opt(TextOf(f, ALIAS), FlagOf(f, NEW))
  }

  function ReadList(f: Folder, name: string): (seq<Link<Opt>>, nat) {
    match Sub(f.subs, name)
    case None => ([], 0)
    case Some(l) => (ReadLinks(ReadOpt, l.subs, |l.subs|, []), MaxOf(l, 0))
  }

  function ReadClient(f: Folder): Client {
    var (req, maxReq) := ReadList(f, REQ_OPTION);
    var (send, maxSend) := ReadList(f, SENT_OPTION);
    Client(TextOf(f, ALIAS), FlagOf(f, NEW), req, send, maxReq, maxSend)
  }

  /** Loading a registry on top of a tree; without a client folder nothing is loaded. */
  function Loaded(root: Folder, into: Tree): Tree {
    match Sub(root.subs, CLIENT)
    case None => into
    case Some(f) => Tree(ReadLinks(ReadClient, f.subs, |f.subs|, into.clients), MaxOf(f, into.maxClient))
  }

  // ---- Round trip ----

  lemma {:induction false} SubOfSnoc(subs: seq<(string, Folder)>, x: (string, Folder), name: string)
    ensures Sub(subs + [x], name) == if Sub(subs, name).Some? then Sub(subs, name) else if x.0 == name then Some(x.1) else None
  {
    if subs == [] {
      assert subs + [x] == [x];
    } else {
      SubOfSnoc(subs[1..], x, name);
      assert (subs + [x])[1..] == subs[1..] + [x];
    }
  }

  lemma {:induction false} SavedAbsent<T>(keep: T -> bool, make: T -> Folder, s: seq<Link<T>>, k: nat)
    requires forall i :: 0 <= i < |s| ==> s[i].inst != k
    ensures Sub(SaveLinks(keep, make, s), Dec(k)) == None
  {
    if s != [] {
      var front, last := s[..|s| - 1], s[|s| - 1];
      SavedAbsent(keep, make, front, k);
      assert SaveLinks(keep, make, front) + [] == SaveLinks(keep, make, front);
      if Dec(last.inst) == Dec(k) { DecInjective(last.inst, k); }
      SubOfSnoc(SaveLinks(keep, make, front), (Dec(last.inst), make(last.ctx)), Dec(k));
    }
  }

  lemma {:induction false} SavedFound<T>(keep: T -> bool, make: T -> Folder, s: seq<Link<T>>, i: nat)
    requires Ordered(s) && i < |s| && keep(s[i].ctx)
    ensures Sub(SaveLinks(keep, make, s), Dec(s[i].inst)) == Some(make(s[i].ctx))
  {
    var front, last := s[..|s| - 1], s[|s| - 1];
    assert SaveLinks(keep, make, front) + [] == SaveLinks(keep, make, front);
    SubOfSnoc(SaveLinks(keep, make, front), (Dec(last.inst), make(last.ctx)), Dec(s[i].inst));
    if i == |s| - 1 {
      SavedAbsent(keep, make, front, last.inst);
    } else {
      SavedFound(keep, make, front, i);
    }
  }

  /** Reading the sub-folders written for `s`, when every kept entry can be found in `all`. */
  lemma {:induction false} ReadBack<T>(keep: T -> bool, make: T -> Folder, read: Folder -> T, norm: T -> T,
                                       s: seq<Link<T>>, all: seq<(string, Folder)>)
    requires Ordered(s) && SaveLinks(keep, make, s) <= all
    requires forall i :: 0 <= i < |s| && keep(s[i].ctx) ==> Sub(all, Dec(s[i].inst)) == Some(make(s[i].ctx))
    requires forall i :: 0 <= i < |s| && keep(s[i].ctx) ==> read(make(s[i].ctx)) == norm(s[i].ctx)
    ensures ReadLinks(read, all, |SaveLinks(keep, make, s)|, []) == Kept(keep, norm, s)
  {
    if s != [] {
      var front, last := s[..|s| - 1], s[|s| - 1];
      assert forall i :: 0 <= i < |front| ==> front[i] == s[i];
      var subs := SaveLinks(keep, make, front);
      ReadBack(keep, make, read, norm, front, all);
      if keep(last.ctx) {
        assert SaveLinks(keep, make, s)[|subs|] == (Dec(last.inst), make(last.ctx));
        assert all[|subs|] == (Dec(last.inst), make(last.ctx));
        AtolOfDec(last.inst);
        KeptBelow(keep, norm, front, last.inst);
        var before := Kept(keep, norm, front);
        InsertAt(before, Link(last.inst, norm(last.ctx)), |before|);
        assert before[..|before|] == before && before[|before|..] == [];
      }
    }
  }

  lemma LinksReadBack<T>(keep: T -> bool, make: T -> Folder, read: Folder -> T, norm: T -> T, s: seq<Link<T>>)
    requires Ordered(s)
    requires forall i :: 0 <= i < |s| && keep(s[i].ctx) ==> read(make(s[i].ctx)) == norm(s[i].ctx)
    ensures var subs := SaveLinks(keep, make, s); ReadLinks(read, subs, |subs|, []) == Kept(keep, norm, s)
  {
    forall i | 0 <= i < |s| && keep(s[i].ctx)
      ensures Sub(SaveLinks(keep, make, s), Dec(s[i].inst)) == Some(make(s[i].ctx))
    {
      SavedFound(keep, make, s, i);
    }
    ReadBack(keep, make, read, norm, s, SaveLinks(keep, make, s));
  }

  lemma OptReadBack(o: Opt)
    ensures ReadOpt(OptFolder(o)) == SameOpt(o)
  {
    assert ALIAS[0] != NEW[0];
  }

  lemma ListReadBack(os: seq<Link<Opt>>, max: nat)
    requires Ordered(os)
    ensures var l := OptListFolder(os, max);
            ReadLinks(ReadOpt, l.subs, |l.subs|, []) == PendingOf(os) && MaxOf(l, 0) == Uint32(max)
  {
    forall i | 0 <= i < |os| && IsPending(os[i].ctx) ensures ReadOpt(OptFolder(os[i].ctx)) == SameOpt(os[i].ctx) {
      OptReadBack(os[i].ctx);
    }
    LinksReadBack(IsPending, OptFolder, ReadOpt, SameOpt, os);
  }

  lemma ListsFound(c: Client)
    ensures Sub(ClientFolder(c).subs, REQ_OPTION) ==
            if c.req == [] then None else Some(OptListFolder(c.req, c.maxReq))
    ensures Sub(ClientFolder(c).subs, SENT_OPTION) ==
            if c.send == [] then None else Some(OptListFolder(c.send, c.maxSend))
  {
    assert REQ_OPTION[0] != SENT_OPTION[0];
    var req, send := ListSub(REQ_OPTION, c.req, c.maxReq), ListSub(SENT_OPTION, c.send, c.maxSend);
    if c.req != [] {
      assert (req + send)[1..] == send;
    } else {
      assert req + send == send;
    }
  }

  lemma ClientReadBack(c: Client)
    requires Ordered(c.req) && Ordered(c.send)
    ensures ReadClient(ClientFolder(c)) == PruneClient(c)
  {
    ListReadBack(c.req, c.maxReq);
    ListReadBack(c.send, c.maxSend);
    ListsFound(c);
    assert ALIAS[0] != NEW[0];
  }

  /** Lists are sorted by unique non-zero instance number. */
  ghost predicate WellFormed(t: Tree) {
    && Ordered(t.clients)
    && forall i :: 0 <= i < |t.clients| ==> Ordered(t.clients[i].ctx.req) && Ordered(t.clients[i].ctx.send)
  }

  /** Loading a saved tree into an empty one yields exactly the pruned tree. */
  lemma LoadAfterSave(t: Tree)
    requires WellFormed(t)
    ensures Loaded(Saved(t), EmptyTree) == Prune(t)
  {
    forall i | 0 <= i < |t.clients| ensures ReadClient(ClientFolder(t.clients[i].ctx)) == PruneClient(t.clients[i].ctx) {
      ClientReadBack(t.clients[i].ctx);
    }
    LinksReadBack(IsSaved, ClientFolder, ReadClient, PruneClient, t.clients);
  }

  lemma PruneWellFormed(t: Tree)
    requires WellFormed(t)
    ensures WellFormed(Prune(t))
  {
    KeptOrdered(IsSaved, PruneClient, t.clients);
    var kept := Prune(t).clients;
    forall i | 0 <= i < |kept| ensures Ordered(kept[i].ctx.req) && Ordered(kept[i].ctx.send) {
      assert kept[i] in kept;
      var j := KeptFrom(IsSaved, PruneClient, t.clients, kept[i]);
      KeptOrdered(IsPending, SameOpt, t.clients[j].ctx.req);
      KeptOrdered(IsPending, SameOpt, t.clients[j].ctx.send);
    }
  }

  // ---- Repeated cycles ----

  /** The tree after `n` saves, each loaded into an empty table. */
  function Cycles(t: Tree, n: nat): Tree {
    if n == 0 then t else Loaded(Saved(Cycles(t, n - 1)), EmptyTree)
  }

  function Prunes(t: Tree, n: nat): Tree {
    if n == 0 then t else Prune(Prunes(t, n - 1))
  }

  lemma {:induction false} CyclesPrune(t: Tree, n: nat)
    requires WellFormed(t)
    ensures Cycles(t, n) == Prunes(t, n) && WellFormed(Prunes(t, n))
  {
    if n > 0 {
      CyclesPrune(t, n - 1);
      LoadAfterSave(Prunes(t, n - 1));
      PruneWellFormed(Prunes(t, n - 1));
    }
  }

  lemma PendingTwice(os: seq<Link<Opt>>)
    ensures PendingOf(PendingOf(os)) == PendingOf(os)
  {
    KeptKept(IsPending, SameOpt, IsPending, SameOpt, IsPending, SameOpt, os);
  }

  predicate HasPending(c: Client) {
    c.pending || PendingOf(c.req) != [] || PendingOf(c.send) != []
  }

  /** A client of the tree with the identity and the pending options of `x`. */
  ghost predicate Survives(t: Tree, x: Link<Client>) {
    exists i :: 0 <= i < |t.clients| && SamePending(t.clients[i], x)
  }

  predicate SamePending(x: Link<Client>, y: Link<Client>) {
    && x.inst == y.inst && x.ctx.name == y.ctx.name && x.ctx.pending == y.ctx.pending
    && PendingOf(x.ctx.req) == PendingOf(y.ctx.req) && PendingOf(x.ctx.send) == PendingOf(y.ctx.send)
  }

  lemma PruneKeepsPending(t: Tree, x: Link<Client>)
    requires HasPending(x.ctx) && Survives(t, x)
    ensures Survives(Prune(t), x)
  {
    var i :| 0 <= i < |t.clients| && SamePending(t.clients[i], x);
    var c := t.clients[i].ctx;
    PendingTwice(c.req);
    PendingTwice(c.send);
    KeptHas(IsSaved, PruneClient, t.clients, i);
    var y := Link(x.inst, PruneClient(c));
    assert SamePending(y, x) && y in Prune(t).clients;
  }

  lemma {:induction false} PendingSurvivesPrunes(t: Tree, x: Link<Client>, n: nat)
    requires HasPending(x.ctx) && Survives(t, x)
    ensures Survives(Prunes(t, n), x)
  {
    if n > 0 {
      PendingSurvivesPrunes(t, x, n - 1);
      PruneKeepsPending(Prunes(t, n - 1), x);
    }
  }

  /** A client that is pending, or has a pending option, survives any number of save and
      load cycles together with its pending options. */
  lemma PendingSurvivesCycles(t: Tree, i: nat, n: nat)
    requires WellFormed(t) && i < |t.clients| && HasPending(t.clients[i].ctx)
    ensures Survives(Cycles(t, n), t.clients[i])
  {
    assert SamePending(t.clients[i], t.clients[i]);
    CyclesPrune(t, n);
    PendingSurvivesPrunes(t, t.clients[i], n);
  }

  /** Nothing is lost from a list by a save: every option is pending, and the maximum stands
      beside a non-empty list only and fits its record. */
  ghost predicate StableList(os: seq<Link<Opt>>, max: nat) {
    && (forall i :: 0 <= i < |os| ==> os[i].ctx.pending)
    && max < (if os == [] then 1 else 0x1_0000_0000)
  }

  ghost predicate Stable(c: Client) {
    IsSaved(c) && StableList(c.req, c.maxReq) && StableList(c.send, c.maxSend)
  }

  lemma StableListIff(os: seq<Link<Opt>>, max: nat)
    ensures StableList(os, max) <==> PendingOf(os) == os && max == if os == [] then 0 else Uint32(max)
  {
    KeptAllIff(IsPending, SameOpt, os);
  }

  lemma StableIff(c: Client)
    ensures Stable(c) <==> IsSaved(c) && PruneClient(c) == c
  {
    StableListIff(c.req, c.maxReq);
    StableListIff(c.send, c.maxSend);
  }

  lemma PruneIsIdentityIff(t: Tree)
    ensures Prune(t) == t <==>
            t.maxClient < 0x1_0000_0000 && forall i :: 0 <= i < |t.clients| ==> Stable(t.clients[i].ctx)
  {
    KeptAllIff(IsSaved, PruneClient, t.clients);
    forall i | 0 <= i < |t.clients|
      ensures Stable(t.clients[i].ctx) <==> IsSaved(t.clients[i].ctx) && PruneClient(t.clients[i].ctx) == t.clients[i].ctx
    {
      StableIff(t.clients[i].ctx);
    }
  }

  /** A save and a load give back the tree exactly when every client is stable and the
      client maximum fits its record. */
  lemma CycleIsIdentityIff(t: Tree)
    requires WellFormed(t)
    ensures Cycles(t, 1) == t <==>
            t.maxClient < 0x1_0000_0000 && forall i :: 0 <= i < |t.clients| ==> Stable(t.clients[i].ctx)
  {
    CyclesPrune(t, 1);
    assert Prunes(t, 1) == Prune(Prunes(t, 0));
    PruneIsIdentityIff(t);
  }

  /** What a client ends up as. */
  function Settle(c: Client): Client {
    c.(req := PendingOf(c.req), send := PendingOf(c.send),
       maxReq := if PendingOf(c.req) == [] then 0 else Uint32(c.maxReq),
       maxSend := if PendingOf(c.send) == [] then 0 else Uint32(c.maxSend))
  }

  /** Only the clients with something pending, and only what is pending in them. */
  function Settled(t: Tree): Tree {
    Tree(Kept(HasPending, Settle, t.clients), Uint32(t.maxClient))
  }

  predicate SavedTwice(c: Client) {
    IsSaved(c) && IsSaved(PruneClient(c))
  }

  lemma SettleFacts(c: Client)
    ensures PruneClient(PruneClient(c)) == Settle(c) && PruneClient(Settle(c)) == Settle(c)
    ensures IsSaved(Settle(c)) <==> HasPending(c)
    ensures HasPending(c) ==> SavedTwice(c)
  {
    PendingTwice(c.req);
    PendingTwice(c.send);
  }

  lemma PruneThrice(t: Tree)
    ensures Prune(Prune(Prune(t))) == Settled(t)
  {
    var cs := t.clients;
    forall i | 0 <= i < |cs|
      ensures PruneClient(PruneClient(cs[i].ctx)) == Settle(cs[i].ctx) && PruneClient(Settle(cs[i].ctx)) == Settle(cs[i].ctx)
      ensures HasPending(cs[i].ctx) <==> SavedTwice(cs[i].ctx) && IsSaved(Settle(cs[i].ctx))
    {
      SettleFacts(cs[i].ctx);
    }
    KeptKept(IsSaved, PruneClient, IsSaved, PruneClient, SavedTwice, Settle, cs);
    KeptKept(SavedTwice, Settle, IsSaved, PruneClient, HasPending, Settle, cs);
  }

  lemma SettledStays(t: Tree)
    ensures Prune(Settled(t)) == Settled(t)
  {
    var cs := t.clients;
    forall i | 0 <= i < |cs|
      ensures PruneClient(Settle(cs[i].ctx)) == Settle(cs[i].ctx)
      ensures IsSaved(Settle(cs[i].ctx)) <==> HasPending(cs[i].ctx)
    {
      SettleFacts(cs[i].ctx);
    }
    KeptKept(HasPending, Settle, IsSaved, PruneClient, HasPending, Settle, cs);
  }

  /** From the third cycle on the tree holds exactly what is pending, and stays so. */
  lemma {:induction false} ThreeCyclesSettle(t: Tree, n: nat)
    requires WellFormed(t) && n >= 3
    ensures Cycles(t, n) == Settled(t)
  {
    CyclesPrune(t, n);
    PruneThrice(t);
    SettledStays(t);
    if n == 3 {
      assert Prunes(t, 3) == Prune(Prunes(t, 2)) && Prunes(t, 1) == Prune(Prunes(t, 0));
    } else {
      ThreeCyclesSettle(t, n - 1);
      CyclesPrune(t, n - 1);
    }
  }

  /** Entries that pass the one test pass the other. */
  predicate Agree<T>(k1: T -> bool, k2: T -> bool, s: seq<Link<T>>) {
    forall i :: 0 <= i < |s| && k1(s[i].ctx) ==> k2(s[i].ctx)
  }

  lemma AgreeSnoc<T>(k1: T -> bool, k2: T -> bool, s: seq<Link<T>>)
    requires s != []
    ensures var front, last := s[..|s| - 1], s[|s| - 1];
            Agree(k1, k2, s) <==> Agree(k1, k2, front) && (k1(last.ctx) ==> k2(last.ctx))
  {
    var front := s[..|s| - 1];
    assert forall i :: 0 <= i < |front| ==> front[i] == s[i];
  }

  lemma SnocEqualIff<T>(a: seq<T>, b: seq<T>, x: T)
    ensures a + [x] == b + [x] <==> a == b
  {
    if a + [x] == b + [x] {
      assert (a + [x])[..|a|] == a && (b + [x])[..|b|] == b;
    }
  }

  /** Of two tests, one implying the other, the lists kept are equal exactly if the tests agree. */
  lemma {:induction false} KeptEqualIff<T>(k1: T -> bool, k2: T -> bool, norm: T -> T, s: seq<Link<T>>)
    requires Agree(k2, k1, s)
    ensures |Kept(k2, norm, s)| <= |Kept(k1, norm, s)|
    ensures Kept(k1, norm, s) == Kept(k2, norm, s) <==> Agree(k1, k2, s)
  {
    if s != [] {
      var front, last := s[..|s| - 1], s[|s| - 1];
      AgreeSnoc(k1, k2, s);
      AgreeSnoc(k2, k1, s);
      KeptEqualIff(k1, k2, norm, front);
      SnocEqualIff(Kept(k1, norm, front), Kept(k2, norm, front), Link(last.inst, norm(last.ctx)));
    }
  }

  /** A client with nothing pending outlives the second cycle: a list that was not empty had
      a maximum that is not zero in its record. */
  predicate Lingers(c: Client) {
    !HasPending(c) && ((c.req != [] && Uint32(c.maxReq) != 0) || (c.send != [] && Uint32(c.maxSend) != 0))
  }

  lemma LingersIff(c: Client)
    ensures SavedTwice(c) && !HasPending(c) <==> Lingers(c)
  {}

  /** The tree is settled after two cycles exactly if no client lingers. */
  lemma TwoCyclesSettleIff(t: Tree)
    requires WellFormed(t)
    ensures Cycles(t, 2) == Settled(t) <==> forall i :: 0 <= i < |t.clients| ==> !Lingers(t.clients[i].ctx)
  {
    CyclesPrune(t, 2);
    assert Prunes(t, 1) == Prune(Prunes(t, 0));
    PrunedTwice(t);
    forall i | 0 <= i < |t.clients|
      ensures HasPending(t.clients[i].ctx) ==> SavedTwice(t.clients[i].ctx)
      ensures SavedTwice(t.clients[i].ctx) && !HasPending(t.clients[i].ctx) <==> Lingers(t.clients[i].ctx)
    {
      SettleFacts(t.clients[i].ctx);
      LingersIff(t.clients[i].ctx);
    }
    KeptEqualIff(SavedTwice, HasPending, Settle, t.clients);
  }

  lemma PrunedTwice(t: Tree)
    ensures Prune(Prune(t)) == Tree(Kept(SavedTwice, Settle, t.clients), Uint32(t.maxClient))
  {
    forall i | 0 <= i < |t.clients| ensures PruneClient(PruneClient(t.clients[i].ctx)) == Settle(t.clients[i].ctx) {
      SettleFacts(t.clients[i].ctx);
    }
    KeptKept(IsSaved, PruneClient, IsSaved, PruneClient, SavedTwice, Settle, t.clients);
  }

  /** A committed client with one committed option is emptied by the first prune and loses
      its maximum in the second. */
  lemma PruneSteps(o: Opt)
    requires !o.pending
    ensures PruneClient(Client("c", false, [Link(1, o)], [], 5, 0)) == Client("c", false, [], [], 5, 0)
    ensures PruneClient(Client("c", false, [], [], 5, 0)) == Client("c", false, [], [], 0, 0)
  {
    KeptSingle(IsPending, SameOpt, Link(1, o));
  }

  lemma KeptOne(c: Client, max: nat)
    requires max < 0x1_0000_0000
    ensures Prune(Tree([Link(1, c)], max)) == Tree(if IsSaved(c) then [Link(1, PruneClient(c))] else [], max)
  {
    KeptSingle(IsSaved, PruneClient, Link(1, c));
  }

  /** Two cycles are not enough: that client is gone only after the third. */
  lemma TwoCyclesDoNotSettle()
    ensures exists t :: WellFormed(t) && Cycles(t, 2) != Cycles(t, 3)
  {
    var o := Opt("o", false);
    var c0, c1, c2 := Client("c", false, [Link(1, o)], [], 5, 0), Client("c", false, [], [], 5, 0), Client("c", false, [], [], 0, 0);
    var t, t1, t2 := Tree([Link(1, c0)], 1), Tree([Link(1, c1)], 1), Tree([Link(1, c2)], 1);
    PruneSteps(o);
    KeptOne(c0, 1);
    KeptOne(c1, 1);
    KeptOne(c2, 1);
    assert Prune(t) == t1 && Prune(t1) == t2 && Prune(t2) == Tree([], 1);
    assert WellFormed(t) by { assert Ordered(c0.req) && Ordered(c0.send); }
    CyclesThrice(t, t1, t2, Tree([], 1));
  }

  lemma CyclesThrice(t: Tree, t1: Tree, t2: Tree, t3: Tree)
    requires WellFormed(t) && Prune(t) == t1 && Prune(t1) == t2 && Prune(t2) == t3
    ensures Cycles(t, 2) == t2 && Cycles(t, 3) == t3
  {
    CyclesPrune(t, 2);
    CyclesPrune(t, 3);
    assert Prunes(t, 1) == Prune(Prunes(t, 0));
    assert Prunes(t, 2) == t2;
  }

  // ---- The table in memory ----

  /** SListPushEntryByInsNum: walks the list to the first entry with a larger number. */
  method PushByInsNum<T>(list: seq<Link<T>>, x: Link<T>) returns (r: seq<Link<T>>)
    ensures r == Insert(list, x)
  {
    if |list| == 0 {
      InsertAt(list, x, 0);
      return [x];
    }
    var i := 0;
    while i < |list|
      invariant i <= |list|
      invariant forall j :: 0 <= j < i ==> list[j].inst <= x.inst
    {
      if x.inst < list[i].inst {
        InsertAt(list, x, i);
        return list[..i] + [x] + list[i..];
      }
      i := i + 1;
    }
    InsertAt(list, x, |list|);
    assert list[|list|..] == [] && list[..|list|] == list;
    r := list + [x];
  }

  method SaveOptions(os: seq<Link<Opt>>, max: nat) returns (f: Folder)
    ensures f == OptListFolder(os, max)
  {
    var subs: seq<(string, Folder)> := [];
    var i := 0;
    while i < |os|
      invariant i <= |os|
      invariant subs == SaveLinks(IsPending, OptFolder, os[..i])
    {
      assert os[..i + 1][..i] == os[..i];
      if os[i].ctx.pending {
        subs := subs + [(Dec(os[i].inst), OptFolder(os[i].ctx))];
      }
      i := i + 1;
    }
    assert os[..i] == os;
    f := Folder(MaxRecord(max), subs);
  }

  method LoadOptions(f: Folder) returns (os: seq<Link<Opt>>, max: nat)
    ensures os == ReadLinks(ReadOpt, f.subs, |f.subs|, []) && max == MaxOf(f, 0)
  {
    max := MaxOf(f, 0);
    os := [];
    var i := 0;
    while i < |f.subs|
      invariant i <= |f.subs|
      invariant os == ReadLinks(ReadOpt, f.subs, i, [])
    {
      var name := f.subs[i].0;
      var found := Sub(f.subs, name);
      if Atol(name) != 0 && found.Some? {
        os := PushByInsNum(os, Link(Atol(name), ReadOpt(found.value)));
      }
      i := i + 1;
    }
  }

  class Dhcpv4Data {
    var clients: seq<Link<Client>>
    var maxClient: nat
    var registry: Folder

    function Contents(): Tree reads this {
      Tree(clients, maxClient)
    }

    /** WanMgr_Dhcpv4RegSetDhcpv4Info: clears the registry and writes the table. */
    method Save()
      modifies this`registry
      ensures registry == Saved(Contents())
    {
      var subs: seq<(string, Folder)> := [];
      var i := 0;
      while i < |clients|
        invariant i <= |clients|
        invariant subs == SaveLinks(IsSaved, ClientFolder, clients[..i])
      {
        assert clients[..i + 1][..i] == clients[..i];
        var c := clients[i].ctx;
        i := i + 1;
        if !c.pending && |c.req| == 0 && |c.send| == 0 && c.maxSend == 0 && c.maxReq == 0 {
          continue;
        }
        var lists: seq<(string, Folder)> := [];
        if |c.req| != 0 {
          var req := SaveOptions(c.req, c.maxReq);
          lists := lists + [(REQ_OPTION, req)];
        }
        if |c.send| != 0 {
          var send := SaveOptions(c.send, c.maxSend);
          lists := lists + [(SENT_OPTION, send)];
        }
        var client := Folder(map[ALIAS := TextValue(c.name), NEW := FlagValue(c.pending)], lists);
        assert client == ClientFolder(c);
        subs := subs + [(Dec(clients[i - 1].inst), client)];
      }
      assert clients[..i] == clients;
      registry := Folder(map[], [(CLIENT, Folder(MaxRecord(maxClient), subs))]);
    }

    /** WanMgr_Dhcpv4RegGetDhcpv4Info: reads the registry on top of the table. */
    method Load() returns (ok: bool)
      modifies this`clients, this`maxClient
      ensures Contents() == Loaded(registry, old(Contents()))
      ensures ok <==> Sub(registry.subs, CLIENT).Some?
    {
      var folder := Sub(registry.subs, CLIENT);
      if folder == None { return false; }
      var f := folder.value;
      maxClient := MaxOf(f, maxClient);
      clients := LoadClients(f, clients);
      ok := true;
    }
  }

  method LoadClients(f: Folder, into: seq<Link<Client>>) returns (clients: seq<Link<Client>>)
    ensures clients == ReadLinks(ReadClient, f.subs, |f.subs|, into)
  {
    clients := into;
    var i := 0;
    while i < |f.subs|
      invariant i <= |f.subs|
      invariant clients == ReadLinks(ReadClient, f.subs, i, into)
    {
      var name := f.subs[i].0;
      var found := Sub(f.subs, name);
      if Atol(name) != 0 && found.Some? {
        var client := LoadClient(found.value);
        clients := PushByInsNum(clients, Link(Atol(name), client));
      }
      i := i + 1;
    }
  }

  method LoadClient(f: Folder) returns (c: Client)
    ensures c == ReadClient(f)
  {
    var req: seq<Link<Opt>>, maxReq: nat := [], 0;
    var send: seq<Link<Opt>>, maxSend: nat := [], 0;
    var reqFolder := Sub(f.subs, REQ_OPTION);
    if reqFolder.Some? { req, maxReq := LoadOptions(reqFolder.value); }
    var sendFolder := Sub(f.subs, SENT_OPTION);
    if sendFolder.Some? { send, maxSend := LoadOptions(sendFolder.value); }
    c := Client(TextOf(f, ALIAS), FlagOf(f, NEW), req, send, maxReq, maxSend);
  }
}
