// From the decision to give an interface up to the end of its connection: the policy clears the
// active link, and the machine takes its leases down and leaves for DECONFIGURING.

module WanStops {
  import opened WanTypes
  import opened InterfaceLemmas
  import opened WanSystem
  import I = InterfaceSpec
  import P = PolicySpec

  // ---- The policy gives an interface up ----

  /** In INTERFACE_DOWN there is no active index, and no active flag anywhere. */
  predicate DownIsCleared(s: System) {
    s.policy.st == P.InterfaceDown ==> s.policy.active == -1 && forall i :: 0 <= i < |s.table| ==> !s.table[i].wan.activeLink
  }

  lemma StepKeepsDownCleared(s: System, e: Event, standby: bool)
    requires TableOk(s) && DownIsCleared(s) && Enabled(s, e)
    ensures DownIsCleared(Next(s, e, standby))
  {
    match e
    case TickThread(k, o) => TickOnlyDropsLink(Machine(s, k), s.enable, o);
    case TickPolicy(created) => P.TickKeepsDownCleared(P.World(s.policy, s.table, []), s.enable, standby);
    case _ =>
  }

  lemma {:induction false} RunKeepsDownCleared(s: System, es: seq<Event>, standby: bool)
    requires TableOk(s) && DownIsCleared(s) && IsRun(s, es, standby)
    ensures TableOk(Exec(s, es, standby)) && DownIsCleared(Exec(s, es, standby))
    decreases |es|
  {
    if es != [] {
      StepKeepsDownCleared(s, es[0], standby);
      StepKeepsTableOk(s, es[0], standby);
      RunKeepsDownCleared(Next(s, es[0], standby), es[1..], standby);
    }
  }

  /** This holds in every run, with or without standby. */
  lemma DownIsClearedInEveryRun(s: System, es: seq<Event>, standby: bool)
    requires Initial(s) && IsRun(s, es, standby)
    ensures DownIsCleared(Exec(s, es, standby))
  {
    RunKeepsDownCleared(s, es, standby);
  }

  // ---- The machine gives its connection up ----

  /** On its way out, or gone. */
  predicate Leaving(th: Thread) {
    th.phase.Finished? || (th.phase.Running? && (th.phase.st == I.DeconfiguringWan || th.phase.st == I.Exit))
  }

  function StopRankOf(th: Thread): nat {
    match th.phase
    case Spawned => 4
    case Running(st) => StopRank(st)
    case Finished => 0
  }

  /** One of the four guards holds for the working machine of thread `k`. */
  predicate Guarded(s: System, k: nat)
    requires k < |s.threads| && Working(s.threads[k]) && s.threads[k].idx < |s.table|
  {
    var ifc := s.table[s.threads[k].idx];
    || s.enable == false || ifc.wan.activeLink == false || ifc.phy == PhyDown || ifc.wan.linkStatus == LinkDown
  }

  /** One of them holds whenever thread `k` ticks, not always the same one. */
  predicate GuardedTicks(s: System, es: seq<Event>, k: nat)
    requires IsRun(s, es, false)
    decreases |es|
  {
    es != [] ==>
      && (es[0].TickThread? && es[0].k == k && Working(s.threads[k]) ==> Guarded(s, k))
      && GuardedTicks(Next(s, es[0], false), es[1..], k)
  }

  /** What a run that descends to DECONFIGURING has in hand. The IPv6 side (`v6`) must not have
      been stranded before, and is kept only while the machine works, since a later one may
      strand it. */
  ghost predicate Descending(s: System, k: nat, v6: bool) {
    && Inv(s) && k < |s.threads| && !s.threads[k].phase.Spawned?
    && (v6 && Working(s.threads[k]) ==> Ipv6HasHolder(s))
  }

  /** On its way out, with its connections down. */
  predicate Stopped(s: System, k: nat, v6: bool) {
    && k < |s.threads| && Leaving(s.threads[k])
    && (Working(s.threads[k]) ==> !s.conn.v4 && (v6 ==> !s.conn.v6))
  }

  lemma GuardedTickDescends(s: System, k: nat, o: I.Outcome, v6: bool)
    requires Descending(s, k, v6) && Enabled(s, TickThread(k, o)) && (Working(s.threads[k]) ==> Guarded(s, k))
    ensures var t := AfterTick(s, k, o);
            && Descending(t, k, v6)
            && (StopRankOf(t.threads[k]) < StopRankOf(s.threads[k]) || StopRankOf(t.threads[k]) == StopRankOf(s.threads[k]) == 0)
  {
    TickKeepsInv(s, k, o);
    TickFacts(s, k, o);
    if Working(s.threads[k]) {
      var m := Machine(s, k);
      LiveThreadOwnsIpv4(s, k);
      StopTickDescends(m, s.enable, o);
      var h := Seen(m, s.enable, o);
      assert h.ifc.wan == m.ifc.wan && h.ifc.phy == m.ifc.phy && MustStop(h);
      if v6 { TickKeepsIpv6HolderIff(s, k, o); }
    }
  }

  lemma OtherStepKeeps(s: System, e: Event, k: nat, v6: bool)
    requires Descending(s, k, v6) && Enabled(s, e) && !(e.TickThread? && e.k == k)
    ensures var t := Next(s, e, false); Descending(t, k, v6) && t.threads[k] == s.threads[k]
  {
    StepKeepsInv(s, e);
    if Working(s.threads[k]) {
      if e.TickThread? {
        assert !Live(s.threads[e.k]);
        assert Seen(Machine(s, e.k), s.enable, e.o).st == I.Exit;
      }
      if v6 { StepKeepsIpv6HolderIff(s, e); }
    }
  }

  lemma {:induction false} RunDescendsToStop(s: System, es: seq<Event>, k: nat, v6: bool)
    requires Descending(s, k, v6) && IsRun(s, es, false) && GuardedTicks(s, es, k)
    ensures var t := Exec(s, es, false);
            && Descending(t, k, v6)
            && (StopRankOf(t.threads[k]) + TicksOf(es, k) <= StopRankOf(s.threads[k]) || StopRankOf(t.threads[k]) == 0)
    decreases |es|
  {
    if es != [] {
      var e := es[0];
      if e.TickThread? && e.k == k {
        GuardedTickDescends(s, k, e.o, v6);
      } else {
        OtherStepKeeps(s, e, k, v6);
      }
      RunDescendsToStop(Next(s, e, false), es[1..], k, v6);
    }
  }

  lemma StoppedAtRankZero(s: System, k: nat, v6: bool)
    requires Descending(s, k, v6) && StopRankOf(s.threads[k]) == 0
    ensures Stopped(s, k, v6)
  {
    if Working(s.threads[k]) {
      LiveThreadOwnsIpv4(s, k);
      if v6 { LiveThreadOwnsIpv6(s, k); }
    }
  }

  lemma StopRankBound(s: System, k: nat)
    requires Inv(s) && k < |s.threads| && Working(s.threads[k])
    ensures StopRankOf(s.threads[k]) <= 3
  {
    assert NoTunnelState(s.threads);
  }

  lemma GuardedStops(u: System, es: seq<Event>, k: nat)
    requires Inv(u) && IsRun(u, es, false) && k < |u.threads| && Working(u.threads[k])
    requires GuardedTicks(u, es, k) && TicksOf(es, k) >= 3
    ensures Stopped(Exec(u, es, false), k, Ipv6HasHolder(u))
  {
    var v6 := Ipv6HasHolder(u);
    StopRankBound(u, k);
    RunDescendsToStop(u, es, k, v6);
    StoppedAtRankZero(Exec(u, es, false), k, v6);
  }

  /** From every reachable state: if at each tick of the working machine WAN is disabled, or
      another interface is active, or its device or its link is down, then after at most three
      ticks it is in DECONFIGURING or gone, and while it is there `ipv4_connection_state` is
      down, and so is the IPv6 twin unless it had been stranded before, whatever messages come
      and whatever else happens in between. */
  lemma GuardedMachineStops(s: System, before: seq<Event>, es: seq<Event>, k: nat)
    requires Initial(s) && IsRun(s, before, false)
    requires var u := Exec(s, before, false);
             && IsRun(u, es, false) && k < |u.threads| && Working(u.threads[k])
             && GuardedTicks(u, es, k) && TicksOf(es, k) >= 3
    ensures var u := Exec(s, before, false); Stopped(Exec(u, es, false), k, Ipv6HasHolder(u))
  {
    InitialInv(s);
    InvInEveryRun(s, before);
    GuardedStops(Exec(s, before, false), es, k);
  }

  // ---- From the policy to the machine ----

  /** While a deselected machine works, the policy waits for it: no flag is set. */
  predicate Deselected(s: System, k: nat) {
    && s.policy.st == P.InterfaceDown && k < |s.threads| && Working(s.threads[k])
    && forall i :: 0 <= i < |s.table| ==> !s.table[i].wan.activeLink
  }

  lemma PolicyWaits(s: System, k: nat)
    requires Inv(s) && Deselected(s, k)
    ensures PolicyWorld(s, false).policy.st == P.InterfaceDown
    ensures PolicyWorld(s, false).table == s.table && PolicyWorld(s, false).starts == []
  {
    assert HasWorker(s.threads, s.threads[k].idx);
    assert !P.AllDown(s.table);
  }

  lemma StepKeepsDeselected(s: System, e: Event, k: nat)
    requires Inv(s) && Deselected(s, k) && Enabled(s, e)
    ensures var t := Next(s, e, false); Deselected(t, k) || (k < |t.threads| && !Live(t.threads[k]))
  {
    match e
    case TickThread(j, o) =>
      TickOnlyDropsLink(Machine(s, j), s.enable, o);
      TickFacts(s, k, o);
    case TickPolicy(created) => PolicyWaits(s, k);
    case _ =>
  }

  lemma {:induction false} DeadIsGuarded(s: System, es: seq<Event>, k: nat)
    requires Inv(s) && IsRun(s, es, false) && k < |s.threads| && !Live(s.threads[k])
    ensures GuardedTicks(s, es, k)
    decreases |es|
  {
    if es != [] {
      DeadStays(s, es[0], k);
      StepKeepsInv(s, es[0]);
      DeadIsGuarded(Next(s, es[0], false), es[1..], k);
    }
  }

  lemma {:induction false} DeselectedIsGuarded(s: System, es: seq<Event>, k: nat)
    requires Inv(s) && Deselected(s, k) && IsRun(s, es, false)
    ensures GuardedTicks(s, es, k)
    decreases |es|
  {
    if es != [] {
      var t := Next(s, es[0], false);
      StepKeepsDeselected(s, es[0], k);
      StepKeepsInv(s, es[0]);
      if Deselected(t, k) {
        DeselectedIsGuarded(t, es[1..], k);
      } else {
        DeadIsGuarded(t, es[1..], k);
      }
    }
  }

  /** A deselected interface is given up, with no assumption on what follows: from every
      reachable state in which the selection does not stand, or WAN is disabled, a policy tick
      clears every active flag, and three ticks later the machine that worked has taken its
      connections down and is in DECONFIGURING or gone. */
  lemma DeselectedMachineStops(s: System, before: seq<Event>, created: bool, es: seq<Event>, k: nat)
    requires Initial(s) && IsRun(s, before, false)
    requires var u := Exec(s, before, false);
             && u.policy.st != P.InterfaceDown && !(u.enable && StillSelected(u))
             && Enabled(u, TickPolicy(created)) && k < |u.threads| && Working(u.threads[k])
             && IsRun(AfterPolicy(u, created, false), es, false) && TicksOf(es, k) >= 3
    ensures var u := Exec(s, before, false);
            var v := AfterPolicy(u, created, false);
            && v.policy.st == P.InterfaceDown && (forall i :: 0 <= i < |v.table| ==> !v.table[i].wan.activeLink)
            && Stopped(Exec(v, es, false), k, Ipv6HasHolder(u))
  {
    var u := Exec(s, before, false);
    var v := AfterPolicy(u, created, false);
    InitialInv(s);
    InvInEveryRun(s, before);
    P.DeselectedIff(P.World(u.policy, u.table, []), u.enable);
    assert v.threads == u.threads;
    StepKeepsInv(u, TickPolicy(created));
    if Ipv6HasHolder(u) { StepKeepsIpv6HolderIff(u, TickPolicy(created)); }
    DeselectedIsGuarded(v, es, k);
    GuardedStops(v, es, k);
  }
}
