// Where in the registry a save puts what, by the folder and record names that
// source/WanManager/wanmgr_dhcpv4_internal.h:45-51 lays down, apart from how a load reads it.

module RegistryLayout {
  import opened WanTypes
  import opened Text
  import opened Dhcpv4Registry

  /** The folder at the end of a path. */
  function At(f: Folder, path: seq<string>): Option<Folder>
    decreases |path|
  {
    if path == [] then Some(f)
    else
      match Sub(f.subs, path[0])
      case None => None
      case Some(g) => At(g, path[1..])
  }

  lemma {:induction false} AtDeeper(f: Folder, path: seq<string>, name: string)
    ensures At(f, path + [name]) == match At(f, path) case None => None case Some(g) => Sub(g.subs, name)
    decreases |path|
  {
    if path == [] {
      assert path + [name] == [name] && [name][1..] == [];
    } else {
      assert (path + [name])[0] == path[0] && (path + [name])[1..] == path[1..] + [name];
      if Sub(f.subs, path[0]).Some? { AtDeeper(Sub(f.subs, path[0]).value, path[1..], name); }
    }
  }

  lemma AtTwo(f: Folder, a: string, b: string)
    ensures At(f, [a]) == Sub(f.subs, a)
    ensures At(f, [a, b]) == match Sub(f.subs, a) case None => None case Some(g) => Sub(g.subs, b)
  {
    AtDeeper(f, [], a);
    AtDeeper(f, [a], b);
    assert [] + [a] == [a] && [a] + [b] == [a, b];
  }

  /** Entries that are not kept leave no sub-folder. */
  lemma {:induction false} DroppedAbsent<T>(keep: T -> bool, make: T -> Folder, s: seq<Link<T>>, i: nat)
    requires Ordered(s) && i < |s| && !keep(s[i].ctx)
    ensures Sub(SaveLinks(keep, make, s), Dec(s[i].inst)) == None
  {
    var front, last := s[..|s| - 1], s[|s| - 1];
    assert SaveLinks(keep, make, front) + [] == SaveLinks(keep, make, front);
    if i == |s| - 1 {
      SavedAbsent(keep, make, front, last.inst);
    } else {
      DroppedAbsent(keep, make, front, i);
      if Dec(last.inst) == Dec(s[i].inst) { DecInjective(last.inst, s[i].inst); }
      SubOfSnoc(SaveLinks(keep, make, front), (Dec(last.inst), make(last.ctx)), Dec(s[i].inst));
    }
  }

  lemma EntryAt<T>(keep: T -> bool, make: T -> Folder, s: seq<Link<T>>, i: nat)
    requires Ordered(s) && i < |s|
    ensures Sub(SaveLinks(keep, make, s), Dec(s[i].inst)) == if keep(s[i].ctx) then Some(make(s[i].ctx)) else None
  {
    if keep(s[i].ctx) { SavedFound(keep, make, s, i); } else { DroppedAbsent(keep, make, s, i); }
  }

  /** No other names are used. */
  lemma {:induction false} OnlyEntries<T>(keep: T -> bool, make: T -> Folder, s: seq<Link<T>>, name: string) returns (i: nat)
    requires Sub(SaveLinks(keep, make, s), name).Some?
    ensures i < |s| && keep(s[i].ctx) && name == Dec(s[i].inst)
  {
    var front, last := s[..|s| - 1], s[|s| - 1];
    assert SaveLinks(keep, make, front) + [] == SaveLinks(keep, make, front);
    SubOfSnoc(SaveLinks(keep, make, front), (Dec(last.inst), make(last.ctx)), name);
    if Sub(SaveLinks(keep, make, front), name).Some? {
      i := OnlyEntries(keep, make, front, name);
    } else {
      i := |s| - 1;
    }
  }

  // ---- Clients ----

  /** Where the client with that instance number goes. */
  function ClientPath(inst: nat): seq<string> {
    ["Client", Dec(inst)]
  }

  lemma ClientsFolder(t: Tree, name: string)
    ensures At(Saved(t), ["Client", name]) == Sub(SaveLinks(IsSaved, ClientFolder, t.clients), name)
  {
    AtTwo(Saved(t), "Client", name);
  }

  /** A client has a folder if and only if it is pending, or has an option or a maximum; it holds
      the alias and the flag. */
  lemma ClientIsAt(t: Tree, i: nat)
    requires WellFormed(t) && i < |t.clients|
    ensures var c, f := t.clients[i].ctx, At(Saved(t), ClientPath(t.clients[i].inst));
            && (f.Some? <==> c.pending || |c.req| > 0 || |c.send| > 0 || c.maxReq > 0 || c.maxSend > 0)
            && (f.Some? ==> f.value.records == map["Alias" := TextValue(c.name), "bNew" := FlagValue(c.pending)])
  {
    ClientsFolder(t, Dec(t.clients[i].inst));
    EntryAt(IsSaved, ClientFolder, t.clients, i);
  }

  /** The client folder records the largest client number, and has no other sub-folders. */
  lemma NoOtherClients(t: Tree, name: string)
    ensures At(Saved(t), ["Client"]).Some?
    ensures At(Saved(t), ["Client"]).value.records == map["NextInstanceNumber" := NumberValue(t.maxClient % 0x1_0000_0000)]
    ensures At(Saved(t), ["Client", name]).Some? ==> exists i :: 0 <= i < |t.clients| && name == Dec(t.clients[i].inst)
  {
    assert ["Client"][1..] == [];
    ClientsFolder(t, name);
    if At(Saved(t), ["Client", name]).Some? {
      var i := OnlyEntries(IsSaved, ClientFolder, t.clients, name);
    }
  }

  // ---- Options ----

  lemma ListFolders(t: Tree, i: nat)
    requires WellFormed(t) && i < |t.clients|
    ensures var c, path := t.clients[i].ctx, ClientPath(t.clients[i].inst);
            && At(Saved(t), path + ["ReqOption"]) == (if c.req == [] then None else Some(OptListFolder(c.req, c.maxReq)))
            && At(Saved(t), path + ["SentOption"]) == (if c.send == [] then None else Some(OptListFolder(c.send, c.maxSend)))
  {
    var c, path := t.clients[i].ctx, ClientPath(t.clients[i].inst);
    ClientsFolder(t, Dec(t.clients[i].inst));
    EntryAt(IsSaved, ClientFolder, t.clients, i);
    AtDeeper(Saved(t), path, "ReqOption");
    AtDeeper(Saved(t), path, "SentOption");
    ListsFound(c);
  }

  /** What stands at the path of a list: a folder if and only if the list is not empty, with the
      largest number in 32 bits; in it a folder for each pending option and for no other, with
      its alias and its flag. */
  ghost predicate ListIsAt(root: Folder, path: seq<string>, os: seq<Link<Opt>>, max: nat) {
    && (At(root, path).Some? <==> |os| > 0)
    && (|os| > 0 ==> At(root, path).value.records == map["NextInstanceNumber" := NumberValue(max % 0x1_0000_0000)])
    && (forall j :: 0 <= j < |os| ==> OptionIsAt(At(root, path + [Dec(os[j].inst)]), os[j].ctx))
    && (forall name :: At(root, path + [name]).Some? ==> NamesEntry(os, name))
  }

  predicate OptionIsAt(f: Option<Folder>, o: Opt) {
    && (f.Some? <==> o.pending)
    && (f.Some? ==> f.value == Folder(map["Alias" := TextValue(o.name), "bNew" := FlagValue(true)], []))
  }

  predicate NamesEntry(os: seq<Link<Opt>>, name: string) {
    exists j :: 0 <= j < |os| && name == Dec(os[j].inst)
  }

  lemma ListContents(root: Folder, path: seq<string>, os: seq<Link<Opt>>, max: nat)
    requires Ordered(os) && At(root, path) == if os == [] then None else Some(OptListFolder(os, max))
    ensures ListIsAt(root, path, os, max)
  {
    forall j | 0 <= j < |os| ensures OptionIsAt(At(root, path + [Dec(os[j].inst)]), os[j].ctx) {
      AtDeeper(root, path, Dec(os[j].inst));
      EntryAt(IsPending, OptFolder, os, j);
    }
    forall name | At(root, path + [name]).Some? ensures NamesEntry(os, name) {
      AtDeeper(root, path, name);
      var j := OnlyEntries(IsPending, OptFolder, os, name);
    }
  }

  /** Both lists of every client are where they belong, requested options under "ReqOption" and
      sent ones under "SentOption". */
  lemma OptionsAreAt(t: Tree, i: nat)
    requires WellFormed(t) && i < |t.clients|
    ensures var c, path := t.clients[i].ctx, ClientPath(t.clients[i].inst);
            && ListIsAt(Saved(t), path + ["ReqOption"], c.req, c.maxReq)
            && ListIsAt(Saved(t), path + ["SentOption"], c.send, c.maxSend)
  {
    var c, path := t.clients[i].ctx, ClientPath(t.clients[i].inst);
    ListFolders(t, i);
    ListContents(Saved(t), path + ["ReqOption"], c.req, c.maxReq);
    ListContents(Saved(t), path + ["SentOption"], c.send, c.maxSend);
  }

  // ---- Loading on top of a table ----

  /** How often an entry is in a list. */
  function Times<T(==)>(s: seq<Link<T>>, y: Link<T>): nat {
    multiset(s)[y]
  }

  lemma {:induction false} InsertAdds<T>(s: seq<Link<T>>, x: Link<T>, y: Link<T>)
    ensures Times(Insert(s, x), y) == Times(s, y) + if x == y then 1 else 0
  {
    if s == [] {
    } else if x.inst < s[0].inst {
      assert Insert(s, x) == [x] + s;
    } else {
      InsertAdds(s[1..], x, y);
      assert s == [s[0]] + s[1..];
    }
  }

  /** How often one sub-folder adds the entry. */
  function Gain<T(==)>(read: Folder -> T, subs: seq<(string, Folder)>, n: nat, y: Link<T>): (g: nat)
    requires n < |subs|
  {
    var name := subs[n].0;
    var found := Sub(subs, name);
    if Atol(name) == 0 || found == None then 0 else if Link(Atol(name), read(found.value)) == y then 1 else 0
  }

  lemma ReadOne<T>(read: Folder -> T, subs: seq<(string, Folder)>, n: nat, into: seq<Link<T>>, y: Link<T>, g: nat)
    requires n < |subs| && g == Gain(read, subs, n, y)
    ensures Times(ReadLinks(read, subs, n + 1, into), y) == Times(ReadLinks(read, subs, n, into), y) + g
  {
    var name := subs[n].0;
    var found := Sub(subs, name);
    if Atol(name) != 0 && found.Some? {
      InsertAdds(ReadLinks(read, subs, n, into), Link(Atol(name), read(found.value)), y);
    }
  }

  /** What is read is added to the list it is read into, whatever is there. */
  lemma {:induction false} ReadAdds<T>(read: Folder -> T, subs: seq<(string, Folder)>, n: nat, into: seq<Link<T>>, y: Link<T>)
    requires n <= |subs|
    ensures Times(ReadLinks(read, subs, n, into), y) == Times(into, y) + Times(ReadLinks(read, subs, n, []), y)
  {
    if n == 0 {
      assert multiset([])[y] == 0;
    } else {
      var g := Gain(read, subs, n - 1, y);
      ReadAdds(read, subs, n - 1, into, y);
      ReadOne(read, subs, n - 1, into, y, g);
      ReadOne(read, subs, n - 1, [], y, g);
    }
  }

  /** Loading a saved tree on top of a table keeps every client of the table and adds those that
      the saved tree loads to on its own; the largest number is the saved one. */
  lemma LoadAddsSaved(t: Tree, into: Tree, y: Link<Client>)
    requires WellFormed(t)
    ensures var r := Loaded(Saved(t), into);
            && Times(r.clients, y) == Times(into.clients, y) + Times(Prune(t).clients, y)
            && r.maxClient == t.maxClient % 0x1_0000_0000
  {
    LoadAfterSave(t);
    AtTwo(Saved(t), "Client", "");
    var f := Sub(Saved(t).subs, "Client").value;
    ReadAdds(ReadClient, f.subs, |f.subs|, into.clients, y);
  }

  /** A record that is missing: no alias, the pending flag set, the maximum as it was; a missing
      list is empty. Without a client folder nothing is loaded. */
  lemma MissingRecords(f: Folder, root: Folder, into: Tree)
    requires f == Folder(map[], []) && At(root, ["Client"]) == None
    ensures ReadClient(f) == Client("", true, [], [], 0, 0) && MaxOf(f, into.maxClient) == into.maxClient
    ensures Loaded(root, into) == into
  {
    AtTwo(root, "Client", "");
  }
}
