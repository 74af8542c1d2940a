// The one-slot mailboxes between the DHCP message server and the interface machines
// (source/WanManager/wanmgr_ipc.c, source/WanManager/wanmgr_interface_sm.c): nothing is
// overwritten, nothing is lost, nothing is handled twice.

module Mailbox {
  import opened WanTypes
  import opened WanDatabase
  import opened WanSystem
  import InterfaceLemmas
  import I = InterfaceSpec

  /** A message of either family. */
  datatype Msg = M4(m4: Ipv4Msg) | M6(m6: Ipv6Msg)

  const MAX_TRIES := 5

  // ---- Accounting over runs ----

  /** The message waiting in one mailbox of an interface, if any. */
  function Pending(ifc: Iface, v6: bool): (r: seq<Msg>)
    ensures |r| <= 1
  {
    if v6 then (if ifc.ip.box6.Some? then [M6(ifc.ip.box6.value)] else [])
    else if ifc.ip.box4.Some? then [M4(ifc.ip.box4.value)] else []
  }

  /** What a step puts into a mailbox of interface `i`. */
  function AcceptedBy(s: System, e: Event, i: nat, v6: bool): seq<Msg> {
    match e
    case Offer4(msg) => if !v6 && Accepts4(s, msg) && Lookup(s.table, msg.data.ifname) == i then [M4(msg)] else []
    case Offer6(msg) => if v6 && Accepts6(s, msg) && Lookup(s.table, msg.data.ifname) == i then [M6(msg)] else []
    case _ => []
  }

  /** What a step hands to the event handlers of interface `i`: a tick of any of its threads
      handles what is in the mailbox. */
  function HandledBy(s: System, e: Event, i: nat, v6: bool): seq<Msg>
    requires Enabled(s, e)
  {
    match e
    case TickThread(k, o) => if s.threads[k].idx == i then Pending(s.table[i], v6) else []
    case _ => []
  }

  function Accepted(s: System, es: seq<Event>, standby: bool, i: nat, v6: bool): seq<Msg>
    requires IsRun(s, es, standby)
    decreases |es|
  {
    if es == [] then []
    else AcceptedBy(s, es[0], i, v6) + Accepted(Next(s, es[0], standby), es[1..], standby, i, v6)
  }

  function Handled(s: System, es: seq<Event>, standby: bool, i: nat, v6: bool): seq<Msg>
    requires IsRun(s, es, standby)
    decreases |es|
  {
    if es == [] then []
    else HandledBy(s, es[0], i, v6) + Handled(Next(s, es[0], standby), es[1..], standby, i, v6)
  }

  /** `t` is what interface `i` has after the step: pending and accepted before is handled
      and pending after. */
  predicate Conserves(s: System, e: Event, i: nat, v6: bool, after: Iface)
    requires Enabled(s, e) && i < |s.table|
  {
    Pending(s.table[i], v6) + AcceptedBy(s, e, i, v6) == HandledBy(s, e, i, v6) + Pending(after, v6)
  }

  lemma SameBoxesConserve(s: System, e: Event, i: nat, v6: bool, after: Iface)
    requires Enabled(s, e) && i < |s.table| && !e.Offer4? && !e.Offer6?
    requires e.TickThread? ==> s.threads[e.k].idx != i
    requires after.ip.box4 == s.table[i].ip.box4 && after.ip.box6 == s.table[i].ip.box6
    ensures Conserves(s, e, i, v6, after)
  {
  }

  lemma TickConserves(s: System, k: nat, o: I.Outcome, i: nat, v6: bool)
    requires Enabled(s, TickThread(k, o)) && i < |s.table|
    ensures Conserves(s, TickThread(k, o), i, v6, AfterTick(s, k, o).table[i])
  {
    InterfaceLemmas.TickEmptiesBoxes(Machine(s, k), s.enable, o);
    if s.threads[k].idx != i { SameBoxesConserve(s, TickThread(k, o), i, v6, s.table[i]); }
  }

  lemma OfferConserves(s: System, e: Event, standby: bool, i: nat, v6: bool)
    requires (e.Offer4? || e.Offer6?) && i < |s.table|
    ensures i < |Next(s, e, standby).table| && Conserves(s, e, i, v6, Next(s, e, standby).table[i])
  {
  }

  /** One step conserves messages. In particular WanManager_ClearDHCPData, which runs inside
      ticks, discards nothing. */
  lemma StepConserves(s: System, e: Event, standby: bool, i: nat, v6: bool)
    requires TableOk(s) && Enabled(s, e) && i < |s.table|
    ensures i < |Next(s, e, standby).table| && Conserves(s, e, i, v6, Next(s, e, standby).table[i])
  {
    match e
    case TickThread(k, o) => TickConserves(s, k, o, i, v6);
    case StartThread(k) => SameBoxesConserve(s, e, i, v6, AfterStart(s, k).table[i]);
    case TickPolicy(created) =>
      PolicyStartsInTable(s, standby);
      SameBoxesConserve(s, e, i, v6, AfterPolicy(s, created, standby).table[i]);
    case Change(j, ifc) => SameBoxesConserve(s, e, i, v6, PutIface(s, j, ifc).table[i]);
    case SetEnable(on) => SameBoxesConserve(s, e, i, v6, s.table[i]);
    case _ => OfferConserves(s, e, standby, i, v6);
  }

  lemma Chain<T>(p: seq<T>, a: seq<T>, h: seq<T>, q: seq<T>, a': seq<T>, h': seq<T>, last: seq<T>)
    requires p + a == h + q && q + a' == h' + last
    ensures p + (a + a') == (h + h') + last
  {
    assert p + (a + a') == (p + a) + a';
    assert (h + q) + a' == h + (q + a');
    assert h + (h' + last) == (h + h') + last;
  }

  /** In every run, with or without standby: the accepted messages of a mailbox, in order,
      are those handled, each once, followed by at most one that is still pending. */
  lemma {:induction false} MessagesConserved(s: System, es: seq<Event>, standby: bool, i: nat, v6: bool)
    requires TableOk(s) && IsRun(s, es, standby) && i < |s.table|
    ensures var t := Exec(s, es, standby);
            i < |t.table| &&
            Pending(s.table[i], v6) + Accepted(s, es, standby, i, v6) ==
            Handled(s, es, standby, i, v6) + Pending(t.table[i], v6)
    decreases |es|
  {
    if es != [] {
      var n := Next(s, es[0], standby);
      StepConserves(s, es[0], standby, i, v6);
      StepKeepsTableOk(s, es[0], standby);
      MessagesConserved(n, es[1..], standby, i, v6);
      Chain(Pending(s.table[i], v6), AcceptedBy(s, es[0], i, v6), HandledBy(s, es[0], i, v6), Pending(n.table[i], v6),
            Accepted(n, es[1..], standby, i, v6), Handled(n, es[1..], standby, i, v6),
            Pending(Exec(n, es[1..], standby).table[i], v6));
    }
  }

  // ---- The producer ----

  /** The table after one delivery attempt. */
  function AfterOffer(t: seq<Iface>, msg: Msg): seq<Iface> {
    var i := Lookup(t, Name(msg));
    if !Accepts(t, msg) then t
    else match msg
      case M4(m) => t[i := t[i].(ip := t[i].ip.(box4 := Some(m)))]
      case M6(m) => t[i := t[i].(ip := t[i].ip.(box6 := Some(m)))]
  }

  function Name(msg: Msg): string {
    match msg case M4(m) => m.data.ifname case M6(m) => m.data.ifname
  }

  /** The named interface exists and its mailbox is empty. */
  predicate Accepts(t: seq<Iface>, msg: Msg) {
    var i := Lookup(t, Name(msg));
    i < |t| && Pending(t[i], msg.M6?) == []
  }

  /** The delivery attempt of the message server is the step of the transition system. */
  lemma OfferIsStep(s: System, msg: Msg, standby: bool)
    ensures Next(s, if msg.M4? then Offer4(msg.m4) else Offer6(msg.m6), standby).table == AfterOffer(s.table, msg)
  {
  }

  lemma LookupIsFirst(t: seq<Iface>, name: string, i: nat)
    requires i <= |t| && (i < |t| ==> t[i].wan.name == name)
    requires forall j :: 0 <= j < i ==> t[j].wan.name != name
    ensures Lookup(t, name) == i
  {
  }

  class Producer {
    const db: Database
    ghost var seen: seq<seq<Iface>>   // the table as each attempt found it

    constructor (db: Database)
      ensures this.db == db && seen == []
    {
      this.db := db;
      seen := [];
    }

    /** One attempt: under the lock, an empty mailbox of the named interface is filled. */
    method TryDeliver(msg: Msg) returns (ok: bool)
      requires db.Valid() && db.Unlocked()
      modifies db`ifaceDepth, db`peak, db`crossed, db.ifaces
      ensures db.Unlocked()
      ensures ok == Accepts(old(db.Table()), msg)
      ensures db.Table() == AfterOffer(old(db.Table()), msg)
    {
      ok := false;
      var r, at := db.GetIfaceByNameLocked(Name(msg));
      ghost var t := db.Table();
      if r != null {
        LookupIsFirst(t, Name(msg), at);
        match msg {
          case M4(m) => if r.ip.box4 == None { r.ip := r.ip.(box4 := Some(m)); ok := true; }
          case M6(m) => if r.ip.box6 == None { r.ip := r.ip.(box6 := Some(m)); ok := true; }
        }
        db.ReleaseIface();
      } else {
        LookupIsFirst(t, Name(msg), |t|);
      }
    }

    /** usleep: the other threads run and may do anything to the records. */
    method Usleep()
      requires db.Valid()
      modifies db.ifaces
    {
      var i := 0;
      while i < |db.ifaces|
      {
        db.ifaces[i].wan, db.ifaces[i].phy, db.ifaces[i].ip := *, *, *;
        i := i + 1;
      }
    }

    /** WanMgr_IpcNewIpv4Msg and WanMgr_IpcNewIpv6Msg: at most five attempts; success means
        the last one found the mailbox empty and no earlier one did, failure that all five
        found it full or the interface missing. */
    method NewMsg(msg: Msg) returns (ok: bool)
      requires db.Valid() && db.Unlocked()
      modifies this`seen, db`ifaceDepth, db`peak, db`crossed, db.ifaces
      ensures old(seen) <= seen && 1 <= |seen| - |old(seen)| <= 5
      ensures forall j :: |old(seen)| <= j < |seen| - 1 ==> !Accepts(seen[j], msg)
      ensures ok == Accepts(seen[|seen| - 1], msg)
      ensures ok ==> db.Table() == AfterOffer(seen[|seen| - 1], msg)
      ensures !ok ==> |seen| - |old(seen)| == 5
      ensures db.Unlocked()
    {
      ok := false;
      var tries := 0;
      while !ok && tries < MAX_TRIES
        invariant 0 <= tries <= MAX_TRIES && db.Unlocked()
        invariant old(seen) <= seen
        invariant |seen| == |old(seen)| + tries + (if ok then 1 else 0)
        invariant forall j :: |old(seen)| <= j < |old(seen)| + tries ==> !Accepts(seen[j], msg)
        invariant ok ==> tries < MAX_TRIES && Accepts(seen[|seen| - 1], msg)
        invariant ok ==> db.Table() == AfterOffer(seen[|seen| - 1], msg)
        decreases MAX_TRIES - tries, !ok
      {
        seen := seen + [db.Table()];
        ok := TryDeliver(msg);
        if !ok {
          tries := tries + 1;
          Usleep();
        }
      }
    }
  }
}
