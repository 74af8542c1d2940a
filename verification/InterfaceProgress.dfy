// Where a machine whose guards hold gets to: up to obtaining addresses, through a refresh, and
// from any mix of leases to the state that names them.

module InterfaceProgress {
  import opened WanTypes
  import opened InterfaceSpec
  import opened InterfaceLemmas

  /** The machine after one tick for each outcome, with WAN enabled and no message. */
  function Ticks(m: Machine, os: seq<Outcome>): Machine
    decreases |os|
  {
    if os == [] then m else Ticks(Tick(m, true, os[0]), os[1..])
  }

  predicate NoMessages(m: Machine) {
    m.ifc.ip.box4 == None && m.ifc.ip.box6 == None
  }

  // ---- Up to obtaining addresses ----

  predicate Fresh(ip: IpInfo) {
    && !ip.ipv4Up && !ip.ipv6Up && !ip.ipv4Changed && !ip.ipv6Changed && ip.ipv4 == EmptyIpv4 && ip.ipv6 == EmptyIpv6
  }

  lemma LinkUpTick(m: Machine, o: Outcome)
    requires m.st == ConfiguringWan || m.st == ValidatingWan
    requires !MustStop(Reading(m, true)) && m.ifc.wan.linkStatus == LinkUp
    ensures var t := Tick(m, true, o);
            && t.conn == m.conn && t.ifc.phy == m.ifc.phy
            && (m.st == ConfiguringWan ==> t.st == ValidatingWan && t.ifc.wan == m.ifc.wan.(status := Validating))
            && (m.st == ValidatingWan ==> t.st == ObtainingIp && t.ifc.wan == m.ifc.wan.(status := Up) && Fresh(t.ifc.ip))
  {
    var h := Seen(m, true, o);
    assert h.st == m.st && h.conn == m.conn && h.ifc.wan == m.ifc.wan && h.ifc.phy == m.ifc.phy;
  }

  /** A configuring machine with its link up is validated in the first tick and obtains addresses
      after the second, with Wan.Status UP and no lease left from before. */
  lemma BringUp(m: Machine, o1: Outcome, o2: Outcome)
    requires m.st == ConfiguringWan && !MustStop(Reading(m, true)) && m.ifc.wan.linkStatus == LinkUp
    ensures var t1 := Tick(m, true, o1);
            var t2 := Tick(t1, true, o2);
            && t1.st == ValidatingWan && t1.ifc.wan == m.ifc.wan.(status := Validating) && t1.conn == m.conn
            && t2.st == ObtainingIp && t2.ifc.wan == m.ifc.wan.(status := Up) && t2.conn == m.conn && Fresh(t2.ifc.ip)
  {
    LinkUpTick(m, o1);
    LinkUpTick(Tick(m, true, o1), o2);
  }

  /** A link that is not up yet keeps the machine configuring, and sends a validating one back. */
  lemma NotUpYet(m: Machine, o: Outcome)
    requires m.st == ConfiguringWan || m.st == ValidatingWan
    requires !MustStop(Reading(m, true)) && m.ifc.wan.linkStatus == LinkConfiguring
    ensures var t := Tick(m, true, o); t.st == ConfiguringWan && t.ifc.wan == m.ifc.wan && t.conn == m.conn
  {
    assert Seen(m, true, o).ifc.wan == m.ifc.wan;
  }

  /** A machine starts with neither family nor tunnel up, whatever was left in the record, and
      with its link CONFIGURING, so that only WAN, the active link and the device can stop it. */
  lemma StartsClean(m: Machine, globalEnable: bool)
    ensures var t := Start(m);
            && t.st == ConfiguringWan && t.ifc.wan.status == Initialising && t.conn == m.conn
            && !t.ifc.ip.ipv4Up && !t.ifc.ip.ipv6Up && !t.ifc.mapt.up && !t.ifc.dslite.up
            && (MustStop(Reading(t, globalEnable)) <==> !globalEnable || !m.ifc.wan.activeLink || m.ifc.phy == PhyDown)
            && t.ifc.wan.refresh == m.ifc.wan.refresh && t.ifc.wan.name == m.ifc.wan.name
            && t.ifc.ip.box4 == m.ifc.ip.box4 && t.ifc.ip.box6 == m.ifc.ip.box6
  {
  }

  /** And it leaves a record that the next one can start on: disabled, not active, no refresh
      asked for; the last tick forgets the name and every lease and ends the thread. */
  lemma EndsClean(m: Machine, enable1: bool, o1: Outcome, enable2: bool, o2: Outcome)
    requires m.st == DeconfiguringWan && m.ifc.wan.linkStatus == LinkDown && m.running
    ensures var t := Tick(m, enable1, o1);
            var u := Tick(t, enable2, o2);
            && t.running && t.st == Exit && t.conn == m.conn
            && t.ifc.wan == m.ifc.wan.(status := Disabled, activeLink := false, refresh := false)
            && !u.running && u.conn == m.conn && u.ifc.wan == t.ifc.wan.(name := "") && Fresh(u.ifc.ip) && NoMessages(u)
  {
    var h := Seen(m, enable1, o1);
    assert h.st == m.st && h.conn == m.conn && h.ifc.wan == m.ifc.wan && h.running;
    EndsTick(Tick(m, enable1, o1), enable2, o2);
  }

  lemma EndsTick(m: Machine, enable: bool, o: Outcome)
    requires m.st == Exit
    ensures var u := Tick(m, enable, o);
            !u.running && u.conn == m.conn && u.ifc.wan == m.ifc.wan.(name := "") && Fresh(u.ifc.ip) && NoMessages(u)
  {
    var h := Seen(m, enable, o);
    assert h.st == m.st && h.conn == m.conn && h.ifc.wan == m.ifc.wan;
  }

  // ---- Refresh ----

  /** A refresh asked for while addresses are obtained takes the link back to CONFIGURING and
      lowers the request; a link that is configuring has the machine wait as well. */
  lemma RefreshBegins(m: Machine, o: Outcome)
    requires m.st == ObtainingIp && !MustStop(Reading(m, true))
    requires m.ifc.wan.refresh || m.ifc.wan.linkStatus == LinkConfiguring
    ensures var t := Tick(m, true, o);
            && t.st == RefreshingWan && t.conn == m.conn && t.ifc.wan.linkStatus == LinkConfiguring
            && t.ifc.wan.refresh == (m.ifc.wan.refresh && m.ifc.wan.linkStatus == LinkConfiguring)
  {
    assert Seen(m, true, o).ifc.wan == m.ifc.wan;
  }

  /** It waits until the link is up, and then obtains addresses with no lease left; a request
      that is pending by then starts the refresh again. */
  lemma RefreshEnds(m: Machine, o: Outcome)
    requires m.st == RefreshingWan && !MustStop(Reading(m, true))
    ensures var t := Tick(m, true, o);
            && t.conn == m.conn
            && (m.ifc.wan.linkStatus == LinkConfiguring ==> t.st == RefreshingWan && t.ifc.wan == m.ifc.wan)
            && (m.ifc.wan.linkStatus == LinkUp && m.ifc.wan.refresh ==>
                  t.st == RefreshingWan && t.ifc.wan == m.ifc.wan.(refresh := false, linkStatus := LinkConfiguring))
            && (m.ifc.wan.linkStatus == LinkUp && !m.ifc.wan.refresh ==>
                  && t.st == ObtainingIp && t.ifc.wan == m.ifc.wan && Fresh(t.ifc.ip))
  {
    assert Seen(m, true, o).ifc.wan == m.ifc.wan;
  }

  // ---- From leases to the state that names them ----

  /** The state for the families that have a lease. */
  function Named(v4: bool, v6: bool): WanState {
    if v4 then (if v6 then DualStackActive else Ipv4Leased) else if v6 then Ipv6Leased else ObtainingIp
  }

  /** Nothing comes from outside: the guards hold, no message waits, no refresh or tunnel is
      asked for. */
  predicate Undisturbed(m: Machine) {
    && m.wanEnable && !MustStop(m) && m.ifc.wan.linkStatus == LinkUp && !m.ifc.wan.refresh
    && NoMessages(m) && !TunnelUp(m.ifc)
  }

  /** The state names the families that are configured; a lease that changed under its own
      leased state, and two leases lost at once, have theorems of their own. */
  predicate Orderly(m: Machine) {
    && m.st == Named(m.conn.v4, m.conn.v6)
    && (m.conn.v4 ==> !m.ifc.ip.ipv4Changed) && (m.conn.v6 ==> !m.ifc.ip.ipv6Changed)
    && (m.conn.v4 && m.conn.v6 ==> m.ifc.ip.ipv4Up || m.ifc.ip.ipv6Up)
  }

  /** What is left to do: take down what was lost, set up what was leased, and for a new IPv6
      lease one tick more to announce it. */
  function Distance(m: Machine): nat {
    (if m.conn.v4 != m.ifc.ip.ipv4Up then 1 else 0) + (if m.conn.v6 != m.ifc.ip.ipv6Up then 1 else 0)
    + (if m.ifc.ip.ipv6Up && !m.conn.v6 && m.ifc.ip.ipv6Changed then 1 else 0)
  }

  predicate Helpful(o: Outcome) {
    o.broadcastOk && o.lanReady
  }

  /** A tick does one of these things, and neither gains nor loses a lease. */
  lemma SettleTick(m: Machine, o: Outcome)
    requires Undisturbed(m) && Orderly(m) && Helpful(o)
    ensures var t := Tick(m, true, o);
            && Undisturbed(t) && Orderly(t)
            && t.ifc.ip.ipv4Up == m.ifc.ip.ipv4Up && t.ifc.ip.ipv6Up == m.ifc.ip.ipv6Up
            && (m.ifc.ip.ipv4Up ==> t.ifc.ip.ipv4 == m.ifc.ip.ipv4) && (m.ifc.ip.ipv6Up ==> t.ifc.ip.ipv6 == m.ifc.ip.ipv6)
            && (if Distance(m) == 0 then t == m else Distance(t) == Distance(m) - 1)
  {
    var h := Seen(m, true, o);
    assert h == m;
  }

  /** Undisturbed, a machine reaches the state that names its leases, with exactly those
      configured, after as many ticks as there is to do, at most three, and stays there. */
  lemma {:induction false} SettlesInThreeTicks(m: Machine, os: seq<Outcome>)
    requires Undisturbed(m) && Orderly(m) && forall i :: 0 <= i < |os| ==> Helpful(os[i])
    ensures Distance(m) <= 3
    ensures |os| >= Distance(m) ==>
              var t, v4, v6 := Ticks(m, os), m.ifc.ip.ipv4Up, m.ifc.ip.ipv6Up;
              && t.st == Named(v4, v6) && t.conn == Conn(v4, v6)
              && (v4 ==> t.ifc.ip.ipv4 == m.ifc.ip.ipv4) && (v6 ==> t.ifc.ip.ipv6 == m.ifc.ip.ipv6)
    decreases |os|
  {
    if os != [] {
      SettleTick(m, os[0]);
      SettlesInThreeTicks(Tick(m, true, os[0]), os[1..]);
    }
  }

  /** Without the LAN bridge address a new IPv6 lease waits: it is configured exactly if the
      bridge is ready, the lease is not new in this tick, and IPv4 does not go first. */
  lemma Ipv6ConfiguredIff(m: Machine, o: Outcome)
    requires Undisturbed(m) && Orderly(m) && !m.conn.v6 && m.ifc.ip.ipv6Up && (m.conn.v4 ==> m.ifc.ip.ipv4Up)
    ensures var t := Tick(m, true, o);
            && (t.conn.v6 <==> o.lanReady && !m.ifc.ip.ipv6Changed && (m.conn.v4 || !m.ifc.ip.ipv4Up))
            && (t.conn.v6 ==> t.st == Named(m.conn.v4, true))
  {
    assert Seen(m, true, o) == m;
  }

  /** And IPv4 exactly if its broadcast address is known; without it the machine is in the
      leased state with `ipv4_connection_state` down. */
  lemma Ipv4ConfiguredIff(m: Machine, o: Outcome)
    requires Undisturbed(m) && Orderly(m) && !m.conn.v4 && m.ifc.ip.ipv4Up && (m.conn.v6 ==> m.ifc.ip.ipv6Up)
    ensures var t := Tick(m, true, o);
            && (t.conn.v4 <==> o.broadcastOk) && t.conn.v6 == m.conn.v6
            && t.st == Named(true, m.conn.v6) && !t.ifc.ip.ipv4Changed
  {
    assert Seen(m, true, o) == m;
  }
}
