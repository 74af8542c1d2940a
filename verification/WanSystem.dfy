// The policy thread, the interface state machine threads and the world around them as one
// transition system, and what holds in every run of it. A step is one tick of a thread,
// the start of a spawned thread, one delivery attempt of a DHCP message, or a change made
// by the environment.

module WanSystem {
  import opened WanTypes
  import opened InterfaceLemmas
  import I = InterfaceSpec
  import P = PolicySpec

  datatype Phase = Spawned | Running(st: I.WanState) | Finished

  /** One interface state machine thread; several may exist for one interface. */
  datatype Thread = Thread(idx: nat, phase: Phase)

  datatype System = System(table: seq<Iface>, conn: Conn, policy: P.Policy, enable: bool, threads: seq<Thread>)

  /** `created` says whether thread creation succeeded. */
  datatype Event =
    | Change(i: nat, ifc: Iface)
    | SetEnable(on: bool)
    | Offer4(msg4: Ipv4Msg)
    | Offer6(msg6: Ipv6Msg)
    | StartThread(k: nat)
    | TickThread(k: nat, o: I.Outcome)
    | TickPolicy(created: bool)

  // ---- Steps ----

  /** The thread passed wan_transition_start and has not passed wan_transition_exit. */
  predicate Working(th: Thread) {
    th.phase.Running? && th.phase.st != I.Exit
  }

  predicate Live(th: Thread) {
    th.phase.Spawned? || Working(th)
  }

  /** The environment owns configuration and link state; it writes neither Wan.Status nor
      ActiveLink, and the address state changes only through messages. */
  predicate EnvironmentMay(before: Iface, after: Iface) {
    && after.wan.status == before.wan.status && after.wan.activeLink == before.wan.activeLink
    && after.ip == before.ip
  }

  /** Index of the first interface with that name, or the table size. */
  function Lookup(t: seq<Iface>, name: string): (i: nat)
    ensures i <= |t|
    ensures i < |t| ==> t[i].wan.name == name
    ensures forall j :: 0 <= j < i ==> t[j].wan.name != name
  {
    if t == [] || t[0].wan.name == name then 0 else 1 + Lookup(t[1..], name)
  }

  function Machine(s: System, k: nat): I.Machine
    requires k < |s.threads| && s.threads[k].phase.Running? && s.threads[k].idx < |s.table|
  {
    I.Machine(true, s.threads[k].phase.st, false, s.table[s.threads[k].idx], s.conn)
  }

  predicate Enabled(s: System, e: Event) {
    match e
    case Change(i, ifc) => i < |s.table| && EnvironmentMay(s.table[i], ifc)
    case SetEnable(on) => true
    case Offer4(msg) => true
    case Offer6(msg) => true
    case StartThread(k) => k < |s.threads| && s.threads[k].phase.Spawned? && s.threads[k].idx < |s.table|
    case TickThread(k, o) => k < |s.threads| && s.threads[k].phase.Running? && s.threads[k].idx < |s.table|
    // a spawned thread runs wan_transition_start before the policy's next tick
    case TickPolicy(created) => forall k :: 0 <= k < |s.threads| ==> !s.threads[k].phase.Spawned?
  }

  /** A delivery attempt fills the mailbox of the named interface if it is empty. */
  predicate Accepts4(s: System, msg: Ipv4Msg) {
    var i := Lookup(s.table, msg.data.ifname);
    i < |s.table| && s.table[i].ip.box4 == None
  }

  predicate Accepts6(s: System, msg: Ipv6Msg) {
    var i := Lookup(s.table, msg.data.ifname);
    i < |s.table| && s.table[i].ip.box6 == None
  }

  function PutIface(s: System, i: nat, ifc: Iface): System
    requires i < |s.table|
  {
    s.(table := s.table[i := ifc])
  }

  function AfterStart(s: System, k: nat): System
    requires Enabled(s, StartThread(k))
  {
    var i := s.threads[k].idx;
    var m := I.Start(I.Machine(true, I.Exit, false, s.table[i], s.conn));
    PutIface(s, i, m.ifc).(threads := s.threads[k := Thread(i, Running(m.st))])
  }

  function AfterTick(s: System, k: nat, o: I.Outcome): System
    requires Enabled(s, TickThread(k, o))
  {
    var i := s.threads[k].idx;
    var m := I.Tick(Machine(s, k), s.enable, o);
    PutIface(s, i, m.ifc).(conn := m.conn,
                           threads := s.threads[k := Thread(i, if m.running then Running(m.st) else Finished)])
  }

  function PolicyWorld(s: System, standby: bool): P.World {
    P.Tick(P.World(s.policy, s.table, []), s.enable, standby)
  }

  function AfterPolicy(s: System, created: bool, standby: bool): System {
    var w := PolicyWorld(s, standby);
    s.(policy := w.policy, table := w.table,
       threads := if created then s.threads + seq(|w.starts|, j requires 0 <= j < |w.starts| => Thread(w.starts[j], Spawned))
                  else s.threads)
  }

  function Next(s: System, e: Event, standby: bool): System
    requires Enabled(s, e)
  {
    match e
    case Change(i, ifc) => PutIface(s, i, ifc)
    case SetEnable(on) => s.(enable := on)
    case Offer4(msg) =>
      var i := Lookup(s.table, msg.data.ifname);
      if Accepts4(s, msg) then PutIface(s, i, s.table[i].(ip := s.table[i].ip.(box4 := Some(msg)))) else s
    case Offer6(msg) =>
      var i := Lookup(s.table, msg.data.ifname);
      if Accepts6(s, msg) then PutIface(s, i, s.table[i].(ip := s.table[i].ip.(box6 := Some(msg)))) else s
    case StartThread(k) => AfterStart(s, k)
    case TickThread(k, o) => AfterTick(s, k, o)
    case TickPolicy(created) => AfterPolicy(s, created, standby)
  }

  predicate Initial(s: System) {
    && |s.table| > 0 && (forall i :: 0 <= i < |s.table| ==> s.table[i] == InitialIface)
    && s.conn == Conn(false, false) && s.threads == []
    && s.policy == P.Policy(P.InterfaceDown, false, -1, -1)
  }

  predicate IsRun(s: System, es: seq<Event>, standby: bool)
    decreases |es|
  {
    es != [] ==> Enabled(s, es[0]) && IsRun(Next(s, es[0], standby), es[1..], standby)
  }

  function Exec(s: System, es: seq<Event>, standby: bool): System
    requires IsRun(s, es, standby)
    decreases |es|
  {
    if es == [] then s else Exec(Next(s, es[0], standby), es[1..], standby)
  }

  // ---- The active link, with or without standby ----

  predicate TableOk(s: System) {
    && P.IndicesInTable(s.policy, |s.table|) && P.ActiveLinkOk(s.policy, s.table)
    && forall k :: 0 <= k < |s.threads| ==> s.threads[k].idx < |s.table|
  }

  lemma TickOnlyDropsLink(m: I.Machine, globalEnable: bool, o: I.Outcome)
    ensures I.Tick(m, globalEnable, o).ifc.wan.activeLink ==> m.ifc.wan.activeLink
  {
    var h := Seen(m, globalEnable, o);
    assert h.ifc.wan == m.ifc.wan && h.st == m.st;
  }

  lemma PolicyStartsInTable(s: System, standby: bool)
    requires TableOk(s)
    ensures forall j :: 0 <= j < |PolicyWorld(s, standby).starts| ==> PolicyWorld(s, standby).starts[j] < |s.table|
    ensures P.Keeps(P.World(s.policy, s.table, []), PolicyWorld(s, standby))
  {
    P.TickKeepsActiveLink(P.World(s.policy, s.table, []), s.enable, standby);
    var starts := PolicyWorld(s, standby).starts;
    forall j | 0 <= j < |starts| ensures starts[j] < |s.table| {
      assert starts[j] in starts;
    }
  }

  lemma StepKeepsTableOk(s: System, e: Event, standby: bool)
    requires TableOk(s) && Enabled(s, e)
    ensures TableOk(Next(s, e, standby)) && |Next(s, e, standby).table| == |s.table|
  {
    match e
    case TickThread(k, o) => TickOnlyDropsLink(Machine(s, k), s.enable, o);
    case TickPolicy(created) => PolicyStartsInTable(s, standby);
    case _ =>
  }

  /** In every run, with or without standby, at most one interface carries the active link,
      and it is the one at the active index. */
  lemma {:induction false} ActiveLinkInEveryRun(s: System, es: seq<Event>, standby: bool)
    requires TableOk(s) && IsRun(s, es, standby)
    ensures TableOk(Exec(s, es, standby))
    decreases |es|
  {
    if es != [] {
      StepKeepsTableOk(s, es[0], standby);
      ActiveLinkInEveryRun(Next(s, es[0], standby), es[1..], standby);
    }
  }

  // ---- One machine at a time, without standby ----

  predicate AtMostOneLive(threads: seq<Thread>) {
    forall j, k :: 0 <= j < k < |threads| ==> !(Live(threads[j]) && Live(threads[k]))
  }

  predicate HasWorker(threads: seq<Thread>, i: nat) {
    exists k :: 0 <= k < |threads| && threads[k].idx == i && Working(threads[k])
  }

  /** Wan.Status is not DISABLED for exactly the interfaces with a working machine. */
  predicate StatusTracksWorkers(s: System) {
    forall i :: 0 <= i < |s.table| ==> (s.table[i].wan.status != Disabled <==> HasWorker(s.threads, i))
  }

  predicate HoldsIpv4(th: Thread) {
    th.phase.Running? && (th.phase.st == I.Ipv4Leased || th.phase.st == I.DualStackActive)
  }

  /** `ipv4_connection_state` up means some machine holds an IPv4 lease. */
  predicate Ipv4HasHolder(s: System) {
    s.conn.v4 ==> exists k :: 0 <= k < |s.threads| && HoldsIpv4(s.threads[k])
  }

  predicate NoTunnelState(threads: seq<Thread>) {
    forall k :: 0 <= k < |threads| && threads[k].phase.Running? ==> threads[k].phase.st != I.Ipv4OverIpv6Active
  }

  ghost predicate Inv(s: System) {
    && TableOk(s) && s.policy.st != P.PrimaryWanActiveSecondaryWanUp
    && AtMostOneLive(s.threads) && StatusTracksWorkers(s) && Ipv4HasHolder(s) && NoTunnelState(s.threads)
  }

  lemma InitialInv(s: System)
    requires Initial(s)
    ensures Inv(s)
  {
  }

  /** With one live machine at most, the shared connection state belongs to it. */
  lemma LiveThreadOwnsIpv4(s: System, k: nat)
    requires Inv(s) && k < |s.threads| && Working(s.threads[k])
    ensures Ipv4Held(s.threads[k].phase.st, s.conn)
  {
    if s.conn.v4 {
      var j :| 0 <= j < |s.threads| && HoldsIpv4(s.threads[j]);
      assert Live(s.threads[j]) && Live(s.threads[k]);
    }
  }

  lemma StartKeepsInv(s: System, k: nat)
    requires Inv(s) && Enabled(s, StartThread(k))
    ensures Inv(AfterStart(s, k))
  {
    var t := AfterStart(s, k);
    assert Live(s.threads[k]);
    assert forall j :: 0 <= j < |s.threads| && j != k ==> t.threads[j] == s.threads[j];
    assert Working(t.threads[k]) && t.threads[k].idx == s.threads[k].idx;
    forall i | 0 <= i < |t.table| ensures t.table[i].wan.status != Disabled <==> HasWorker(t.threads, i) {
      NoWorkerBesideSpawned(s.threads, k, i);
    }
    if t.conn.v4 {
      var j :| 0 <= j < |s.threads| && HoldsIpv4(s.threads[j]);
      assert t.threads[j] == s.threads[j];
    }
  }

  lemma NoWorkerBesideSpawned(threads: seq<Thread>, k: nat, i: nat)
    requires AtMostOneLive(threads) && k < |threads| && threads[k].phase.Spawned?
    ensures !HasWorker(threads, i)
  {
    forall j | 0 <= j < |threads| ensures !Working(threads[j]) {
      assert j == k || !Live(threads[j]) || !Live(threads[k]);
    }
  }

  /** What one tick of a thread does, seen from the system. */
  lemma TickFacts(s: System, k: nat, o: I.Outcome)
    requires Inv(s) && Enabled(s, TickThread(k, o))
    ensures var m := I.Tick(Machine(s, k), s.enable, o);
            && (!Working(s.threads[k]) ==>
                  m.conn == s.conn && !m.running && m.ifc.wan.status == s.table[s.threads[k].idx].wan.status)
            && (Working(s.threads[k]) ==>
                  && m.running && Ipv4Held(m.st, m.conn) && m.st != I.Ipv4OverIpv6Active
                  && (m.ifc.wan.status == Disabled <==> m.st == I.Exit))
  {
    var m := Machine(s, k);
    if Working(s.threads[k]) {
      LiveThreadOwnsIpv4(s, k);
      TickKeepsIpv4Held(m, s.enable, o);
      TickEndsWithLeaseAgreeingIff(m, s.enable, o);
      assert HasWorker(s.threads, s.threads[k].idx);
      TickDisablesExactlyOnExit(m, s.enable, o);
    } else {
      var h := Seen(m, s.enable, o);
      assert h.st == I.Exit && h.conn == s.conn && h.ifc.wan == m.ifc.wan;
    }
  }

  lemma TickKeepsInv(s: System, k: nat, o: I.Outcome)
    requires Inv(s) && Enabled(s, TickThread(k, o))
    ensures Inv(AfterTick(s, k, o))
  {
    var t := AfterTick(s, k, o);
    TickFacts(s, k, o);
    StepKeepsTableOk(s, TickThread(k, o), false);
    assert Live(t.threads[k]) ==> Live(s.threads[k]);
    assert forall j :: 0 <= j < |s.threads| && j != k ==> t.threads[j] == s.threads[j];
    forall i | 0 <= i < |t.table| ensures t.table[i].wan.status != Disabled <==> HasWorker(t.threads, i) {
      if HasWorker(s.threads, i) {
        var j :| 0 <= j < |s.threads| && s.threads[j].idx == i && Working(s.threads[j]);
        assert Live(s.threads[j]);
        if j != k { assert Working(t.threads[j]); }
      }
      if HasWorker(t.threads, i) {
        var j :| 0 <= j < |t.threads| && t.threads[j].idx == i && Working(t.threads[j]);
        if j != k { assert Working(s.threads[j]); }
      }
    }
    if t.conn.v4 {
      if Working(s.threads[k]) {
        assert HoldsIpv4(t.threads[k]);
      } else {
        var j :| 0 <= j < |s.threads| && HoldsIpv4(s.threads[j]);
        assert t.threads[j] == s.threads[j];
      }
    }
  }

  lemma PolicyKeepsInv(s: System, created: bool)
    requires Inv(s) && Enabled(s, TickPolicy(created))
    ensures Inv(AfterPolicy(s, created, false))
  {
    var w := P.World(s.policy, s.table, []);
    var t := AfterPolicy(s, created, false);
    StepKeepsTableOk(s, TickPolicy(created), false);
    PolicyStartsInTable(s, false);
    P.TickStartsOnlyWhenAllDown(w, s.enable);
    P.TickSelectsBest(w, s.enable);
    assert forall k :: 0 <= k < |s.threads| ==> t.threads[k] == s.threads[k];
    assert forall k :: |s.threads| <= k < |t.threads| ==> t.threads[k].phase.Spawned?;
    if |t.threads| > |s.threads| {
      forall k | 0 <= k < |s.threads| ensures !Live(s.threads[k]) {
        if Working(s.threads[k]) { assert HasWorker(s.threads, s.threads[k].idx); }
      }
    }
    forall i | 0 <= i < |t.table| ensures t.table[i].wan.status != Disabled <==> HasWorker(t.threads, i) {
      assert t.table[i].wan.status == s.table[i].wan.status;
      if HasWorker(s.threads, i) {
        var j :| 0 <= j < |s.threads| && s.threads[j].idx == i && Working(s.threads[j]);
        assert Working(t.threads[j]) && t.threads[j].idx == i;
      }
    }
    if t.conn.v4 {
      var j :| 0 <= j < |s.threads| && HoldsIpv4(s.threads[j]);
      assert HoldsIpv4(t.threads[j]);
    }
  }

  lemma StepKeepsInv(s: System, e: Event)
    requires Inv(s) && Enabled(s, e)
    ensures Inv(Next(s, e, false))
  {
    match e
    case StartThread(k) => StartKeepsInv(s, k);
    case TickThread(k, o) => TickKeepsInv(s, k, o);
    case TickPolicy(created) => PolicyKeepsInv(s, created);
    case _ =>
      StepKeepsTableOk(s, e, false);
      var t := Next(s, e, false);
      assert t.threads == s.threads && t.conn == s.conn && t.policy == s.policy;
      assert forall i :: 0 <= i < |s.table| ==> t.table[i].wan.status == s.table[i].wan.status;
  }

  lemma {:induction false} InvInEveryRun(s: System, es: seq<Event>)
    requires Inv(s) && IsRun(s, es, false)
    ensures Inv(Exec(s, es, false))
    decreases |es|
  {
    if es != [] {
      StepKeepsInv(s, es[0]);
      InvInEveryRun(Next(s, es[0], false), es[1..]);
    }
  }

  /** Safety of the control plane: in every run without standby at most one interface
      machine is between wan_transition_start and wan_transition_exit, Wan.Status tells
      exactly which, and `ipv4_connection_state` is up only while it holds an IPv4 lease. */
  lemma OneMachineInEveryRun(s: System, es: seq<Event>)
    requires Initial(s) && IsRun(s, es, false)
    ensures var t := Exec(s, es, false);
            AtMostOneLive(t.threads) && StatusTracksWorkers(t) && Ipv4HasHolder(t) && NoTunnelState(t.threads)
  {
    InitialInv(s);
    InvInEveryRun(s, es);
  }

  /** After every policy tick of a run the selected interface is the best one. */
  lemma SelectionInEveryRun(s: System, es: seq<Event>, created: bool)
    requires Initial(s) && IsRun(s, es, false) && Enabled(Exec(s, es, false), TickPolicy(created))
    ensures var t := Next(Exec(s, es, false), TickPolicy(created), false);
            && (t.policy.st == P.PrimaryWanActive ==> P.FirstLeast(t.table, true, t.policy.active))
            && (t.policy.st == P.SecondaryWanActive ==>
                  P.NoCandidate(t.table, true) && P.FirstLeast(t.table, false, t.policy.active))
  {
    InitialInv(s);
    InvInEveryRun(s, es);
    var u := Exec(s, es, false);
    P.TickSelectsBest(P.World(u.policy, u.table, []), u.enable);
  }

  /** After every tick of a machine in a run its leased state agrees with the address
      status, unless the tick took the tunnel transition from an IPv6-only lease. */
  lemma LeaseAgreesInEveryRun(s: System, es: seq<Event>, k: nat, o: I.Outcome)
    requires Initial(s) && IsRun(s, es, false) && Enabled(Exec(s, es, false), TickThread(k, o))
    ensures var u := Exec(s, es, false);
            var h := Seen(Machine(u, k), u.enable, o);
            LeaseAgrees(I.Tick(Machine(u, k), u.enable, o)) <==> !(h.st == I.Ipv6Leased && TakesTunnel(h))
  {
    InitialInv(s);
    InvInEveryRun(s, es);
    TickEndsWithLeaseAgreeingIff(Machine(Exec(s, es, false), k), Exec(s, es, false).enable, o);
  }

  // ---- The IPv6 twin ----

  predicate HoldsIpv6(th: Thread) {
    th.phase.Running? && (th.phase.st == I.Ipv6Leased || th.phase.st == I.DualStackActive)
  }

  predicate Ipv6HasHolder(s: System) {
    s.conn.v6 ==> exists k :: 0 <= k < |s.threads| && HoldsIpv6(s.threads[k])
  }

  /** The step is no tick that, with `ipv6_connection_state` up, takes the tunnel transition
      (impossible with DS-Lite and MAP-T off) or finds both leases of a dual stack dropped. */
  predicate Quiet(s: System, e: Event)
    requires Enabled(s, e)
  {
    e.TickThread? && s.conn.v6 ==> var h := Seen(Machine(s, e.k), s.enable, e.o); !TakesTunnel(h) && !DropsBoth(h)
  }

  predicate QuietRun(s: System, es: seq<Event>)
    requires IsRun(s, es, false)
    decreases |es|
  {
    es != [] ==> Quiet(s, es[0]) && QuietRun(Next(s, es[0], false), es[1..])
  }

  lemma LiveThreadOwnsIpv6(s: System, k: nat)
    requires Inv(s) && Ipv6HasHolder(s) && k < |s.threads| && Working(s.threads[k])
    ensures Ipv6Held(s.threads[k].phase.st, s.conn)
  {
    if s.conn.v6 {
      var j :| 0 <= j < |s.threads| && HoldsIpv6(s.threads[j]);
      assert Live(s.threads[j]) && Live(s.threads[k]);
    }
  }

  lemma TickKeepsIpv6HolderIff(s: System, k: nat, o: I.Outcome)
    requires Inv(s) && Ipv6HasHolder(s) && Enabled(s, TickThread(k, o))
    ensures Ipv6HasHolder(AfterTick(s, k, o)) <==> Quiet(s, TickThread(k, o))
  {
    var t := AfterTick(s, k, o);
    TickFacts(s, k, o);
    if Working(s.threads[k]) {
      LiveThreadOwnsIpv4(s, k);
      LiveThreadOwnsIpv6(s, k);
      TickKeepsIpv6HeldIff(Machine(s, k), s.enable, o);
      forall j | 0 <= j < |t.threads| && j != k ensures !HoldsIpv6(t.threads[j]) {
        assert Live(s.threads[k]) && t.threads[j] == s.threads[j];
      }
      if t.conn.v6 && Quiet(s, TickThread(k, o)) { assert HoldsIpv6(t.threads[k]); }
    } else {
      assert Seen(Machine(s, k), s.enable, o).st == I.Exit;
      if t.conn.v6 {
        var j :| 0 <= j < |s.threads| && HoldsIpv6(s.threads[j]);
        assert t.threads[j] == s.threads[j];
      }
    }
  }

  /** A single step keeps the IPv6 twin exactly if it is quiet. */
  lemma StepKeepsIpv6HolderIff(s: System, e: Event)
    requires Inv(s) && Ipv6HasHolder(s) && Enabled(s, e)
    ensures Ipv6HasHolder(Next(s, e, false)) <==> Quiet(s, e)
  {
    if e.TickThread? {
      TickKeepsIpv6HolderIff(s, e.k, e.o);
    } else if s.conn.v6 {
      var t := Next(s, e, false);
      var j :| 0 <= j < |s.threads| && HoldsIpv6(s.threads[j]);
      assert j < |t.threads| && t.threads[j] == s.threads[j];
    }
  }

  lemma {:induction false} QuietRunKeepsIpv6Holder(s: System, es: seq<Event>)
    requires Inv(s) && Ipv6HasHolder(s) && IsRun(s, es, false) && QuietRun(s, es)
    ensures Ipv6HasHolder(Exec(s, es, false))
    decreases |es|
  {
    if es != [] {
      StepKeepsIpv6HolderIff(s, es[0]);
      StepKeepsInv(s, es[0]);
      QuietRunKeepsIpv6Holder(Next(s, es[0], false), es[1..]);
    }
  }

  /** In every such run `ipv6_connection_state` is up only while the one working machine
      holds an IPv6 lease. */
  lemma Ipv6HeldInQuietRuns(s: System, es: seq<Event>)
    requires Initial(s) && IsRun(s, es, false) && QuietRun(s, es)
    ensures Ipv6HasHolder(Exec(s, es, false))
  {
    InitialInv(s);
    QuietRunKeepsIpv6Holder(s, es);
  }

  // ---- Bounded stop once the link is down ----

  function ThreadRank(th: Thread): nat {
    match th.phase
    case Spawned => 6
    case Running(st) => Rank(true, st)
    case Finished => 0
  }

  /** The link of interface `i` is down now and after every step of the run. */
  predicate LinkStaysDown(s: System, es: seq<Event>, i: nat)
    requires IsRun(s, es, false)
    decreases |es|
  {
    && i < |s.table| && s.table[i].wan.linkStatus == LinkDown
    && (es != [] ==> LinkStaysDown(Next(s, es[0], false), es[1..], i))
  }

  function TicksOf(es: seq<Event>, k: nat): nat {
    if es == [] then 0
    else (if es[0].TickThread? && es[0].k == k then 1 else 0) + TicksOf(es[1..], k)
  }

  /** A step leaves other threads alone; a tick of a thread whose link is down brings it
      closer to its end. */
  lemma StepDescends(s: System, e: Event, k: nat)
    requires Inv(s) && Enabled(s, e) && k < |s.threads| && !s.threads[k].phase.Spawned?
    requires s.table[s.threads[k].idx].wan.linkStatus == LinkDown
    ensures var t := Next(s, e, false);
            && k < |t.threads| && t.threads[k].idx == s.threads[k].idx && !t.threads[k].phase.Spawned?
            && ThreadRank(t.threads[k]) + (if e.TickThread? && e.k == k then 1 else 0) <= ThreadRank(s.threads[k])
  {
    if e.TickThread? && e.k == k {
      if Working(s.threads[k]) {
        LiveThreadOwnsIpv4(s, k);
        LinkDownTickDescends(Machine(s, k), s.enable, e.o);
      } else {
        TickFacts(s, k, e.o);
      }
    }
  }

  lemma {:induction false} RunDescends(s: System, es: seq<Event>, k: nat)
    requires Inv(s) && IsRun(s, es, false) && k < |s.threads| && !s.threads[k].phase.Spawned?
    requires LinkStaysDown(s, es, s.threads[k].idx)
    ensures var t := Exec(s, es, false);
            k < |t.threads| && t.threads[k].idx == s.threads[k].idx
            && ThreadRank(t.threads[k]) + TicksOf(es, k) <= ThreadRank(s.threads[k])
    decreases |es|
  {
    if es != [] {
      StepDescends(s, es[0], k);
      StepKeepsInv(s, es[0]);
      RunDescends(Next(s, es[0], false), es[1..], k);
    }
  }

  lemma LinkDownStops(u: System, es: seq<Event>, k: nat)
    requires Inv(u) && IsRun(u, es, false) && k < |u.threads| && !u.threads[k].phase.Spawned?
    requires LinkStaysDown(u, es, u.threads[k].idx)
    ensures var t := Exec(u, es, false);
            k < |t.threads| && TicksOf(es, k) <= 5 && (TicksOf(es, k) == 5 ==> t.threads[k].phase.Finished?)
  {
    RunDescends(u, es, k);
    assert NoTunnelState(u.threads);
    assert ThreadRank(u.threads[k]) <= 5;
    var t := Exec(u, es, false);
    if TicksOf(es, k) == 5 { RankZero(t.threads[k]); }
  }

  lemma RankZero(th: Thread)
    requires ThreadRank(th) == 0
    ensures th.phase.Finished?
  {
  }

  /** From every reachable state: once the link of a started machine is down and stays down,
      the machine has at most five ticks left, and its fifth ends the thread, whatever else
      happens in between. */
  lemma LinkDownStopsWithinFiveTicks(s: System, before: seq<Event>, es: seq<Event>, k: nat)
    requires Initial(s) && IsRun(s, before, false)
    requires var u := Exec(s, before, false);
             && IsRun(u, es, false) && k < |u.threads| && !u.threads[k].phase.Spawned?
             && LinkStaysDown(u, es, u.threads[k].idx)
    ensures var t := Exec(Exec(s, before, false), es, false);
            k < |t.threads| && TicksOf(es, k) <= 5 && (TicksOf(es, k) == 5 ==> t.threads[k].phase.Finished?)
  {
    InitialInv(s);
    InvInEveryRun(s, before);
    LinkDownStops(Exec(s, before, false), es, k);
  }

  lemma DeadStays(s: System, e: Event, j: nat)
    requires Inv(s) && Enabled(s, e) && j < |s.threads| && !Live(s.threads[j])
    ensures var t := Next(s, e, false); |s.threads| <= |t.threads| && !Live(t.threads[j])
  {
    if e.TickThread? && e.k == j { TickFacts(s, j, e.o); }
  }

  lemma ThreadsGrow(s: System, e: Event)
    requires Enabled(s, e)
    ensures |s.threads| <= |Next(s, e, false).threads|
  {
  }

  lemma {:induction false} RunKeepsDead(s: System, es: seq<Event>, j: nat)
    requires Inv(s) && IsRun(s, es, false) && j < |s.threads| && !Live(s.threads[j])
    ensures var t := Exec(s, es, false); |s.threads| <= |t.threads| && !Live(t.threads[j])
    decreases |es|
  {
    if es != [] {
      DeadStays(s, es[0], j);
      StepKeepsInv(s, es[0]);
      RunKeepsDead(Next(s, es[0], false), es[1..], j);
    }
  }

  lemma NotLiveAtLowRank(th: Thread)
    requires ThreadRank(th) <= 1
    ensures !Live(th)
  {
  }

  lemma WorkingRank(th: Thread)
    requires Working(th) && th.phase.st != I.Ipv4OverIpv6Active
    ensures ThreadRank(th) <= 5
  {
  }

  /** Four ticks with its link down end the only machine there is; so after them no machine is
      live, unless the policy has started the next one already. */
  lemma MachineEnds(u: System, es: seq<Event>, k: nat)
    requires Inv(u) && IsRun(u, es, false) && k < |u.threads| && Working(u.threads[k])
    requires LinkStaysDown(u, es, u.threads[k].idx) && TicksOf(es, k) >= 4
    ensures var t := Exec(u, es, false);
            |t.threads| > |u.threads| || forall j :: 0 <= j < |t.threads| ==> !Live(t.threads[j])
  {
    var t := Exec(u, es, false);
    RunDescends(u, es, k);
    WorkingRank(u.threads[k]);
    NotLiveAtLowRank(t.threads[k]);
    forall j | 0 <= j < |u.threads| ensures j < |t.threads| && !Live(t.threads[j]) {
      if j != k { OthersDie(u, es, k, j); }
    }
  }

  lemma OthersDie(u: System, es: seq<Event>, k: nat, j: nat)
    requires Inv(u) && IsRun(u, es, false) && k < |u.threads| && Working(u.threads[k]) && j < |u.threads| && j != k
    ensures j < |Exec(u, es, false).threads| && !Live(Exec(u, es, false).threads[j])
  {
    assert Live(u.threads[k]) && !Live(u.threads[j]);
    RunKeepsDead(u, es, j);
  }

  // ---- Failover ----

  predicate NoneLive(s: System) {
    forall k :: 0 <= k < |s.threads| ==> !Live(s.threads[k])
  }

  predicate SomeCandidate(s: System) {
    !P.NoCandidate(s.table, true) || !P.NoCandidate(s.table, false)
  }

  /** The tick from `s` to `t` starts one machine, on the interface it makes active. */
  predicate StartsNext(s: System, t: System) {
    && |t.threads| == |s.threads| + 1 && t.threads[|s.threads|].phase.Spawned?
    && t.threads[|s.threads|].idx == t.policy.active
    && 0 <= t.policy.active < |t.table| && t.table[t.policy.active].wan.activeLink
  }

  function AfterTickPolicy(s: System): System {
    AfterPolicy(s, true, false)
  }

  lemma FailoverStep(u: System)
    requires Inv(u) && NoneLive(u) && u.policy.st == P.InterfaceDown && u.enable && SomeCandidate(u)
    ensures Enabled(u, TickPolicy(true)) && StartsNext(u, AfterTickPolicy(u))
  {
    assert forall i :: 0 <= i < |u.table| ==> !HasWorker(u.threads, i);
    P.TickStartsWhenAllDown(P.World(u.policy, u.table, []), false);
    PolicyStartsInTable(u, false);
  }

  predicate StillSelected(s: System) {
    P.StillSelected(P.World(s.policy, s.table, []))
  }

  /** The active interface is given up first, which starts nothing and leaves the candidates. */
  lemma DeselectStep(u: System)
    requires Inv(u) && NoneLive(u) && u.policy.st != P.InterfaceDown && u.enable && SomeCandidate(u) && !StillSelected(u)
    ensures var t := AfterTickPolicy(u);
            && t.threads == u.threads && t.policy.st == P.InterfaceDown && t.enable
            && Inv(t) && NoneLive(t) && SomeCandidate(t)
  {
    var w := P.World(u.policy, u.table, []);
    P.DeselectedIff(w, true);
    PolicyStartsInTable(u, false);
    P.LinksDoNotMatter(u.table, PolicyWorld(u, false).table);
    PolicyKeepsInv(u, true);
  }

  /** A selection that still stands is left as it is: nothing is started by any further tick. */
  lemma StuckStep(u: System)
    requires StillSelected(u) && u.enable
    ensures var t := AfterTickPolicy(u); t.threads == u.threads && t.table == u.table && StillSelected(t) && t.enable
  {
    P.StillSelectedStays(P.World(u.policy, u.table, []));
  }

  /** With no machine live, WAN enabled and some interface eligible, one of the next two policy
      ticks starts a machine exactly if the old selection does not stand any more. */
  lemma RestartsIff(u: System)
    requires Inv(u) && NoneLive(u) && u.enable && SomeCandidate(u)
    ensures Enabled(u, TickPolicy(true)) &&
            var t := AfterTickPolicy(u);
            && (!StartsNext(u, t) ==> Enabled(t, TickPolicy(true)))
            && (StartsNext(u, t) || StartsNext(t, AfterTickPolicy(t)) <==> !StillSelected(u))
  {
    if StillSelected(u) {
      StuckStep(u);
      StuckStep(AfterTickPolicy(u));
    } else if u.policy.st == P.InterfaceDown {
      FailoverStep(u);
    } else {
      DeselectStep(u);
      FailoverStep(AfterTickPolicy(u));
    }
  }

  /** A lost link blocks failover for a bounded time only: from every reachable state, once the
      working machine has ticked four times with its link down, whatever else happened, either
      the policy has started the next machine already, or one of its next two ticks starts it,
      on the interface then active. The one exception is a selection that still stands, such as
      a primary whose link came down and up again while its Phy stayed up: no tick restarts it. */
  lemma FailoverFollows(s: System, before: seq<Event>, es: seq<Event>, k: nat)
    requires Initial(s) && IsRun(s, before, false)
    requires var u := Exec(s, before, false);
             && IsRun(u, es, false) && k < |u.threads| && Working(u.threads[k])
             && LinkStaysDown(u, es, u.threads[k].idx) && TicksOf(es, k) >= 4
             && var t := Exec(u, es, false); t.enable && SomeCandidate(t)
    ensures var u := Exec(s, before, false);
            var t := Exec(u, es, false);
            || |t.threads| > |u.threads|
            || (Enabled(t, TickPolicy(true)) &&
                var t1 := AfterTickPolicy(t);
                && (!StartsNext(t, t1) ==> Enabled(t1, TickPolicy(true)))
                && (StartsNext(t, t1) || StartsNext(t1, AfterTickPolicy(t1)) <==> !StillSelected(t)))
  {
    var u := Exec(s, before, false);
    InitialInv(s);
    InvInEveryRun(s, before);
    InvInEveryRun(u, es);
    MachineEnds(u, es, k);
    var t := Exec(u, es, false);
    if |t.threads| <= |u.threads| { RestartsIff(t); }
  }

  /** However many policy ticks follow, a selection that stands keeps WAN down. */
  lemma {:induction false} StuckForever(u: System, n: nat)
    requires StillSelected(u) && u.enable
    ensures PolicyTicks(u, n).threads == u.threads && PolicyTicks(u, n).table == u.table
    decreases n
  {
    if n > 0 {
      StuckStep(u);
      StuckForever(AfterTickPolicy(u), n - 1);
    }
  }

  function PolicyTicks(u: System, n: nat): System
    decreases n
  {
    if n == 0 then u else PolicyTicks(AfterTickPolicy(u), n - 1)
  }
}
