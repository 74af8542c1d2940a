// What every tick of the interface state machine keeps, and what a tick does to a lease.

module InterfaceLemmas {
  import opened WanTypes
  import opened InterfaceSpec

  // ---- Connection state and machine state ----

  /** `ipv4_connection_state` is up only while the machine holds an IPv4 lease. */
  predicate Ipv4Held(st: WanState, conn: Conn) {
    conn.v4 ==> st == Ipv4Leased || st == DualStackActive
  }

  predicate Ipv6Held(st: WanState, conn: Conn) {
    conn.v6 ==> st == Ipv6Leased || st == DualStackActive
  }

  /** A guard asks the machine to give its interface up: WAN is disabled, another interface is
      active, or the device or the link is down. Written out on the record, apart from the test
      in the state functions. */
  predicate MustStop(m: Machine) {
    || m.wanEnable == false
    || m.ifc.wan.activeLink == false
    || m.ifc.phy == PhyDown
    || m.ifc.wan.linkStatus == LinkDown
  }

  /** An enabled DS-Lite or MAP-T tunnel is up. */
  predicate TunnelUp(ifc: Iface) {
    || (ifc.wan.enableDslite == true && ifc.dslite.up == true)
    || (ifc.wan.enableMapt == true && ifc.mapt.up == true)
  }

  /** The IPv4-over-IPv6 transition is taken by this tick. */
  predicate TakesTunnel(h: Machine) {
    && !MustStop(h) && h.ifc.ip.ipv6Up && TunnelUp(h.ifc)
    && ((h.st == Ipv6Leased && !h.ifc.ip.ipv6Changed && !h.ifc.ip.ipv4Up) || (h.st == DualStackActive && h.ifc.ip.ipv4Up))
  }

  /** A dual-stack tick finds both leases gone: it tears down IPv4 only. */
  predicate DropsBoth(h: Machine) {
    h.st == DualStackActive && !MustStop(h) && !h.ifc.ip.ipv4Up && !h.ifc.ip.ipv6Up
  }

  /** The machine as the state function of a tick sees it. */
  function Seen(m: Machine, globalEnable: bool, o: Outcome): Machine {
    HandleMessages(m.(wanEnable := globalEnable), o)
  }

  /** IPv4 is always torn down before the machine leaves the leased states. */
  lemma TickKeepsIpv4Held(m: Machine, globalEnable: bool, o: Outcome)
    requires Ipv4Held(m.st, m.conn)
    ensures var t := Tick(m, globalEnable, o); Ipv4Held(t.st, t.conn)
  {
    var h := Seen(m, globalEnable, o);
    assert h.st == m.st && h.conn == m.conn;
  }

  /** The IPv6 twin survives a tick exactly when the tick neither takes the tunnel
      transition nor finds both leases dropped while IPv6 is still configured. */
  lemma TickKeepsIpv6HeldIff(m: Machine, globalEnable: bool, o: Outcome)
    requires Ipv4Held(m.st, m.conn) && Ipv6Held(m.st, m.conn)
    ensures var t, h := Tick(m, globalEnable, o), Seen(m, globalEnable, o);
            Ipv6Held(t.st, t.conn) <==> !(m.conn.v6 && (TakesTunnel(h) || DropsBoth(h)))
  {
    var h := Seen(m, globalEnable, o);
    assert h.st == m.st && h.conn == m.conn;
  }

  /** A run that strands IPv6: both leases expire in one dual-stack tick, and the machine
      is back to obtaining addresses with `ipv6_connection_state` still up. */
  lemma BothLeasesDroppedStrandsIpv6(m: Machine, o: Outcome)
    requires m.st == DualStackActive && m.conn == Conn(true, true) && !MustStop(m.(wanEnable := true))
    requires m.ifc.ip.box4.Some? && !m.ifc.ip.box4.value.addressAssigned && m.ifc.ip.box4.value.isExpired
    requires m.ifc.ip.box6.Some? && m.ifc.ip.box6.value.isExpired
    ensures var t := Tick(m, true, o); t.st == ObtainingIp && t.conn == Conn(false, true)
  {
    var h := Seen(m, true, o);
    assert h.st == DualStackActive && !h.ifc.ip.ipv4Up && !h.ifc.ip.ipv6Up;
  }

  // ---- Machine state and lease status ----

  /** The leased states agree with the address status of the interface. */
  predicate LeaseAgrees(m: Machine) {
    && (m.st == Ipv4Leased || m.st == DualStackActive ==> m.ifc.ip.ipv4Up)
    && (m.st == Ipv6Leased || m.st == DualStackActive ==> m.ifc.ip.ipv6Up)
    && m.st != Ipv4OverIpv6Active
  }

  /** Every tick ends with the leased states agreeing with the address status, except one
      that takes the tunnel transition from an IPv6-only lease. */
  lemma TickEndsWithLeaseAgreeingIff(m: Machine, globalEnable: bool, o: Outcome)
    requires m.st != Ipv4OverIpv6Active
    ensures var t, h := Tick(m, globalEnable, o), Seen(m, globalEnable, o);
            && t.st != Ipv4OverIpv6Active
            && (LeaseAgrees(t) <==> !(h.st == Ipv6Leased && TakesTunnel(h)))
  {
    var h := Seen(m, globalEnable, o);
    assert h.st == m.st;
  }

  // ---- Mailboxes ----

  lemma LeasedStatesLeaveBoxesEmpty(h: Machine, o: Outcome)
    requires h.ifc.ip.box4 == None && h.ifc.ip.box6 == None
    requires h.st == Ipv4Leased || h.st == Ipv6Leased || h.st == DualStackActive
    ensures var t := RunState(h, o); t.ifc.ip.box4 == None && t.ifc.ip.box6 == None
  {
  }

  lemma StatesLeaveBoxesEmpty(h: Machine, o: Outcome)
    requires h.ifc.ip.box4 == None && h.ifc.ip.box6 == None
    ensures var t := RunState(h, o); t.ifc.ip.box4 == None && t.ifc.ip.box6 == None
  {
    if h.st == Ipv4Leased || h.st == Ipv6Leased || h.st == DualStackActive {
      LeasedStatesLeaveBoxesEmpty(h, o);
    }
  }

  lemma HandlersEmptyBoxes(ifc: Iface, o: Outcome)
    ensures HandleIpv4(ifc.ip).box4 == None && HandleIpv4(ifc.ip).box6 == ifc.ip.box6
    ensures HandleIpv6(ifc, o).ip.box6 == None && HandleIpv6(ifc, o).ip.box4 == ifc.ip.box4
  {
  }

  /** Every tick ends with both mailboxes empty, and they are empty before the state
      function runs: nothing is left for WanManager_ClearDHCPData to discard. */
  lemma TickEmptiesBoxes(m: Machine, globalEnable: bool, o: Outcome)
    ensures var h := Seen(m, globalEnable, o); h.ifc.ip.box4 == None && h.ifc.ip.box6 == None
    ensures var t := Tick(m, globalEnable, o); t.ifc.ip.box4 == None && t.ifc.ip.box6 == None
  {
    HandlersEmptyBoxes(m.ifc, o);
    HandlersEmptyBoxes(m.ifc.(ip := HandleIpv4(m.ifc.ip)), o);
    StatesLeaveBoxesEmpty(Seen(m, globalEnable, o), o);
  }

  // ---- What is left of a lease ----

  /** The same address, mask, gateway and DNS servers. */
  predicate SameLease(a: Ipv4Data, b: Ipv4Data) {
    a.ip == b.ip && a.mask == b.mask && a.gateway == b.gateway && a.dnsServer == b.dnsServer && a.dnsServer1 == b.dnsServer1
  }

  predicate Ipv4TornDown(m: Machine) {
    !m.conn.v4 && !m.ifc.ip.ipv4Up && m.ifc.ip.ipv4.ip == "" && (m.st == ObtainingIp || m.st == Ipv6Leased)
  }

  /** The five fields by which DHCPv6 leases are compared are empty. */
  predicate NoLease6(d: Ipv6Data) {
    d.address == "" && d.pdIfAddress == "" && d.nameserver == "" && d.nameserver1 == "" && d.sitePrefix == ""
  }

  predicate Ipv6TornDown(m: Machine) {
    !m.conn.v6 && !m.ifc.ip.ipv6Up && NoLease6(m.ifc.ip.ipv6) && (m.st == ObtainingIp || m.st == Ipv4Leased)
  }

  // ---- Every state heeds the four guards ----

  /** The machine and its record before the tick, with the global enable the tick reads. */
  function Reading(m: Machine, globalEnable: bool): Machine {
    m.(wanEnable := globalEnable)
  }

  /** What a tick does while a guard holds, whatever messages it finds. */
  lemma StopStep(m: Machine, globalEnable: bool, o: Outcome)
    requires MustStop(Reading(m, globalEnable)) && Ipv4Held(m.st, m.conn) && m.st != Exit
    ensures var t := Tick(m, globalEnable, o);
            match m.st
            case Ipv4Leased => Ipv4TornDown(t)
            case Ipv6Leased => Ipv6TornDown(t) && t.st == ObtainingIp
            case DualStackActive => Ipv4TornDown(t) && Ipv6TornDown(t)
            case Ipv4OverIpv6Active => t.st == Ipv4Leased && t.conn == m.conn
            case DeconfiguringWan =>
              t.st == (if m.ifc.wan.linkStatus == LinkDown then Exit else DeconfiguringWan) && t.conn == m.conn
            case _ => t.st == DeconfiguringWan && t.conn == m.conn
  {
    var h := Seen(m, globalEnable, o);
    assert h.st == m.st && h.conn == m.conn && h.ifc.wan == m.ifc.wan && h.ifc.phy == m.ifc.phy;
  }

  /** And nothing else makes it do so: it goes to DECONFIGURING exactly if a guard holds, and
      from the leased states takes down a family exactly if a guard holds or that lease is
      lost or changed, both families at once only if a guard holds. */
  lemma StopsIff(m: Machine, globalEnable: bool, o: Outcome)
    requires Ipv4Held(m.st, m.conn) && (m.st == DualStackActive ==> m.conn.v6)
    ensures var t, h, stop := Tick(m, globalEnable, o), Seen(m, globalEnable, o), MustStop(Reading(m, globalEnable));
            match m.st
            case Ipv4Leased => Ipv4TornDown(t) <==> stop || !h.ifc.ip.ipv4Up || h.ifc.ip.ipv4Changed
            case Ipv6Leased => Ipv6TornDown(t) <==> stop || !h.ifc.ip.ipv6Up || h.ifc.ip.ipv6Changed
            case DualStackActive => Ipv4TornDown(t) && Ipv6TornDown(t) <==> stop
            case Ipv4OverIpv6Active => true
            case DeconfiguringWan => t.st == Exit <==> m.ifc.wan.linkStatus == LinkDown
            case Exit => !t.running
            case _ => t.st == DeconfiguringWan <==> stop
  {
    var h := Seen(m, globalEnable, o);
    assert h.st == m.st && h.conn == m.conn && h.ifc.wan == m.ifc.wan && h.ifc.phy == m.ifc.phy;
  }

  /** Ticks a working machine needs to reach DECONFIGURING, at most, while a guard holds. */
  function StopRank(st: WanState): nat {
    match st
    case Exit => 0
    case DeconfiguringWan => 0
    case ConfiguringWan => 1
    case ValidatingWan => 1
    case ObtainingIp => 1
    case RefreshingWan => 1
    case Ipv6Leased => 2
    case DualStackActive => 2
    case Ipv4Leased => 3
    case Ipv4OverIpv6Active => 4
  }

  /** While one of the guards holds, every tick brings the machine closer to DECONFIGURING,
      where it stays until its link is down. */
  lemma StopTickDescends(m: Machine, globalEnable: bool, o: Outcome)
    requires MustStop(Reading(m, globalEnable)) && Ipv4Held(m.st, m.conn) && m.st != Exit
    ensures var t := Tick(m, globalEnable, o);
            StopRank(t.st) < StopRank(m.st) || StopRank(t.st) == StopRank(m.st) == 0
  {
    StopStep(m, globalEnable, o);
  }

  // ---- Progress once the link is down ----

  /** Ticks the machine still needs to stop, at most, once its link stays down. */
  function Rank(running: bool, st: WanState): (r: nat)
    ensures r <= 6
  {
    if !running then 0 else
    match st
    case Exit => 1
    case DeconfiguringWan => 2
    case ConfiguringWan => 3
    case ValidatingWan => 3
    case ObtainingIp => 3
    case RefreshingWan => 3
    case Ipv6Leased => 4
    case DualStackActive => 4
    case Ipv4Leased => 5
    case Ipv4OverIpv6Active => 6
  }

  /** With its link down a running machine comes one step closer to stopping at every tick,
      whatever messages it finds. Without the connection-state invariant IPV4_LEASED and
      IPV6_LEASED could hand over to each other. */
  lemma LinkDownTickDescends(m: Machine, globalEnable: bool, o: Outcome)
    requires m.running && m.ifc.wan.linkStatus == LinkDown && Ipv4Held(m.st, m.conn)
    ensures var t := Tick(m, globalEnable, o);
            Rank(t.running, t.st) < Rank(m.running, m.st) && t.ifc.wan.linkStatus == LinkDown
  {
    var h := Seen(m, globalEnable, o);
    assert h.st == m.st && h.conn == m.conn && h.running && h.ifc.wan.linkStatus == LinkDown;
  }

  /** Wan.Status leaves DISABLED only by `Start` and returns to it only on the way to EXIT. */
  lemma TickDisablesExactlyOnExit(m: Machine, globalEnable: bool, o: Outcome)
    requires m.st != Exit && m.ifc.wan.status != Disabled
    ensures var t := Tick(m, globalEnable, o); (t.ifc.wan.status == Disabled <==> t.st == Exit) && t.running == m.running
  {
    var h := Seen(m, globalEnable, o);
    assert h.st == m.st && h.ifc.wan.status == m.ifc.wan.status && h.running == m.running;
  }

  // ---- Lease renewal ----

  /** In IPV4_LEASED, an address-assigned message tears IPv4 down in the same tick exactly
      when it differs from the stored lease in one of the five compared fields. */
  lemma RenewalTearsDownIff(m: Machine, globalEnable: bool, o: Outcome, msg: Ipv4Msg)
    requires m.st == Ipv4Leased && m.ifc.ip.box4 == Some(msg) && msg.addressAssigned
    requires !m.ifc.ip.ipv4Changed && !MustStop(m.(wanEnable := globalEnable))
    ensures var t := Tick(m, globalEnable, o);
            && (Ipv4TornDown(t) <==> !SameLease(m.ifc.ip.ipv4, msg.data))
            && (SameLease(m.ifc.ip.ipv4, msg.data) ==>
                  && t.ifc.ip.ipv4Up && t.ifc.ip.ipv4 == msg.data && t.conn.v4 == m.conn.v4
                  && (m.conn.v4 ==> t.st == Ipv4Leased || t.st == DualStackActive))
  {
    var h := Seen(m, globalEnable, o);
    assert h.st == Ipv4Leased && h.ifc.ip.ipv4Up && h.ifc.ip.ipv4 == msg.data && h.conn == m.conn;
    assert h.ifc.ip.ipv4Changed == !SameLease(m.ifc.ip.ipv4, msg.data);
    assert !MustStop(h);
  }

  /** What the world may do to a healthy interface before a tick: anything that leaves the
      link guards satisfied and the address state alone; a DHCPv4 message, if there is
      one, renews the lease `lease`. IPv6, DS-Lite and MAP-T are free. */
  predicate HealthyBeforeTick(before: Iface, ifc: Iface, lease: Ipv4Data) {
    && ifc.ip.ipv4Up == before.ip.ipv4Up && ifc.ip.ipv4Changed == before.ip.ipv4Changed && ifc.ip.ipv4 == before.ip.ipv4
    && ifc.wan.activeLink && ifc.phy != PhyDown && ifc.wan.linkStatus != LinkDown
    && (ifc.ip.box4.None? || (ifc.ip.box4.value.addressAssigned && SameLease(ifc.ip.box4.value.data, lease)))
  }

  predicate HoldsLease(m: Machine, lease: Ipv4Data) {
    && (m.st == Ipv4Leased || m.st == DualStackActive)
    && m.conn.v4 && m.ifc.ip.ipv4Up && !m.ifc.ip.ipv4Changed && SameLease(m.ifc.ip.ipv4, lease)
  }

  /** The machine after a sequence of healthy intervals, each ended by a tick. */
  function HealthyRun(m: Machine, steps: seq<(Iface, Outcome)>): Machine
    decreases |steps|
  {
    if steps == [] then m
    else HealthyRun(Tick(m.(ifc := steps[0].0), true, steps[0].1), steps[1..])
  }

  predicate HealthySteps(m: Machine, steps: seq<(Iface, Outcome)>, lease: Ipv4Data)
    decreases |steps|
  {
    steps != [] ==>
      && HealthyBeforeTick(m.ifc, steps[0].0, lease)
      && HealthySteps(Tick(m.(ifc := steps[0].0), true, steps[0].1), steps[1..], lease)
  }

  lemma HealthyTickKeepsLease(m: Machine, ifc: Iface, o: Outcome, lease: Ipv4Data)
    requires HoldsLease(m, lease) && HealthyBeforeTick(m.ifc, ifc, lease)
    ensures HoldsLease(Tick(m.(ifc := ifc), true, o), lease)
  {
    var h := Seen(m.(ifc := ifc), true, o);
    assert h.st == m.st && h.conn == m.conn && h.ifc.ip.ipv4Up && !h.ifc.ip.ipv4Changed;
    assert SameLease(h.ifc.ip.ipv4, lease) && !MustStop(h);
  }

  /** Any number of identical renewals, with any IPv6 traffic around them, never takes
      IPv4 down. */
  lemma {:induction false} RenewalsNeverTearDown(m: Machine, steps: seq<(Iface, Outcome)>, lease: Ipv4Data)
    requires HoldsLease(m, lease) && HealthySteps(m, steps, lease)
    ensures HoldsLease(HealthyRun(m, steps), lease)
    decreases |steps|
  {
    if steps != [] {
      HealthyTickKeepsLease(m, steps[0].0, steps[0].1, lease);
      RenewalsNeverTearDown(Tick(m.(ifc := steps[0].0), true, steps[0].1), steps[1..], lease);
    }
  }

  // ---- A changed lease ----

  /** The lease of the message is stored, announced up, and no change is left to configure. */
  predicate Configured(t: Machine, msg: Ipv4Msg) {
    t.ifc.ip.ipv4Up && !t.ifc.ip.ipv4Changed && t.ifc.ip.ipv4 == msg.data
  }

  /** An address-assigned message with another lease, on a link that is up and not refreshing,
      in any state: the same tick configures the new lease exactly in OBTAINING_IP_ADDRESSES,
      or in IPV6_LEASED with an IPv6 lease that is neither lost nor changed. IPV4_LEASED tears
      IPv4 down and forgets the address; DUAL_STACK_ACTIVE stores the lease and leaves the
      change pending. */
  lemma ChangedLeaseConfiguredIff(m: Machine, o: Outcome, msg: Ipv4Msg)
    requires m.ifc.ip.box4 == Some(msg) && msg.addressAssigned && !SameLease(m.ifc.ip.ipv4, msg.data)
    requires !MustStop(m.(wanEnable := true)) && m.ifc.wan.linkStatus == LinkUp && !m.ifc.wan.refresh
    ensures var t, h := Tick(m, true, o), Seen(m, true, o);
            && (Configured(t, msg) <==>
                  m.st == ObtainingIp || (m.st == Ipv6Leased && h.ifc.ip.ipv6Up && !h.ifc.ip.ipv6Changed))
            && (Configured(t, msg) ==> t.conn.v4 == (m.conn.v4 || o.broadcastOk))
            && (m.st == Ipv4Leased ==> Ipv4TornDown(t))
            && (m.st == DualStackActive ==> ChangePending(t, m.conn.v4) && t.ifc.ip.ipv4 == msg.data)
  {
    var h := Seen(m, true, o);
    assert h.st == m.st && h.conn == m.conn && h.ifc.ip.ipv4Up && h.ifc.ip.ipv4Changed && h.ifc.ip.ipv4 == msg.data;
    assert h.ifc.wan == m.ifc.wan && !MustStop(h);
  }

  /** A changed lease that is stored but not configured; IPv4 is set up as it was before. */
  predicate ChangePending(m: Machine, v4: bool) {
    m.ifc.ip.ipv4Up && m.ifc.ip.ipv4Changed && m.conn.v4 == v4
  }

  /** What the world may do before a tick: anything that leaves the link guards satisfied and
      the IPv4 state alone; a DHCPv4 message, if there is one, assigns any lease at all. */
  predicate AssignedBeforeTick(before: Iface, ifc: Iface) {
    && ifc.ip.ipv4Up == before.ip.ipv4Up && ifc.ip.ipv4Changed == before.ip.ipv4Changed && ifc.ip.ipv4 == before.ip.ipv4
    && ifc.wan.activeLink && ifc.phy != PhyDown && ifc.wan.linkStatus != LinkDown
    && (ifc.ip.box4.None? || ifc.ip.box4.value.addressAssigned)
  }

  /** In DUAL_STACK_ACTIVE a tick never configures a pending lease; the machine stays there
      exactly while IPv6 is up and no tunnel is wanted, and otherwise falls back. */
  lemma DualStackKeepsPending(m: Machine, ifc: Iface, o: Outcome)
    requires m.st == DualStackActive && ChangePending(m, m.conn.v4) && AssignedBeforeTick(m.ifc, ifc)
    ensures var t, h := Tick(m.(ifc := ifc), true, o), Seen(m.(ifc := ifc), true, o);
            && ChangePending(t, m.conn.v4)
            && (t.st == DualStackActive <==> h.ifc.ip.ipv6Up && !TunnelUp(h.ifc))
            && (t.st != DualStackActive && m.conn.v4 ==> t.st == Ipv4Leased)
  {
    var h := Seen(m.(ifc := ifc), true, o);
    assert h.st == m.st && h.conn == m.conn && h.ifc.ip.ipv4Up && h.ifc.ip.ipv4Changed && !MustStop(h);
  }

  predicate DualStackSteps(m: Machine, steps: seq<(Iface, Outcome)>)
    decreases |steps|
  {
    steps != [] ==>
      var t := Tick(m.(ifc := steps[0].0), true, steps[0].1);
      AssignedBeforeTick(m.ifc, steps[0].0) && t.st == DualStackActive && DualStackSteps(t, steps[1..])
  }

  /** Over any number of ticks in DUAL_STACK_ACTIVE, however often the new lease is sent again,
      a pending lease stays unconfigured and IPv4 set up as before. */
  lemma {:induction false} DualStackNeverConfigures(m: Machine, steps: seq<(Iface, Outcome)>)
    requires m.st == DualStackActive && ChangePending(m, m.conn.v4) && DualStackSteps(m, steps)
    ensures var t := HealthyRun(m, steps); t.st == DualStackActive && ChangePending(t, m.conn.v4)
    decreases |steps|
  {
    if steps != [] {
      DualStackKeepsPending(m, steps[0].0, steps[0].1);
      DualStackNeverConfigures(Tick(m.(ifc := steps[0].0), true, steps[0].1), steps[1..]);
    }
  }

  /** Back in IPV4_LEASED a pending lease is torn down by the next tick, whatever message it
      finds: so a lease changed in dual stack is lost as well. */
  lemma PendingIsTornDown(m: Machine, globalEnable: bool, o: Outcome)
    requires m.st == Ipv4Leased && m.ifc.ip.ipv4Changed
    ensures Ipv4TornDown(Tick(m, globalEnable, o))
  {
    var h := Seen(m, globalEnable, o);
    assert h.st == Ipv4Leased && (!h.ifc.ip.ipv4Up || h.ifc.ip.ipv4Changed);
  }

  /** From IPV4_LEASED alone the changed lease costs a second message: the tick that sees the
      change tears IPv4 down and forgets the address, so without another message the next tick
      has no IPv4, and with the same message again it configures the new lease. */
  lemma ChangedLeaseNeedsSecondMessage(m: Machine, o: Outcome, o2: Outcome, msg: Ipv4Msg)
    requires m.st == Ipv4Leased && m.ifc.ip.box4 == Some(msg) && msg.addressAssigned && m.ifc.ip.box6 == None
    requires !m.ifc.ip.ipv4Changed && !MustStop(m.(wanEnable := true)) && !SameLease(m.ifc.ip.ipv4, msg.data)
    requires !m.ifc.ip.ipv6Up && m.ifc.wan.linkStatus == LinkUp && !m.ifc.wan.refresh && o2.broadcastOk
    ensures var t := Tick(m, true, o);
            && t.st == ObtainingIp && t.ifc.ip.box4 == None
            && (var quiet := Tick(t, true, o2); quiet.st == ObtainingIp && !quiet.conn.v4)
            && (var again := Tick(t.(ifc := t.ifc.(ip := t.ifc.ip.(box4 := Some(msg)))), true, o2);
                again.st == Ipv4Leased && again.conn.v4 && again.ifc.ip.ipv4 == msg.data)
  {
    RenewalTearsDownIff(m, true, o, msg);
    var t := Tick(m, true, o);
    assert t == Ipv4DownT(Seen(m, true, o));
    var again := Seen(t.(ifc := t.ifc.(ip := t.ifc.ip.(box4 := Some(msg)))), true, o2);
    assert again.ifc.ip.ipv4Up && again.ifc.ip.ipv4 == msg.data && !again.ifc.ip.ipv6Up;
  }
}
