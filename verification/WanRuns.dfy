// Runs of the system that reach the states in which the code does not do what it is for.

module WanRuns {
  import opened WanTypes
  import opened WanSystem
  import opened InterfaceLemmas
  import I = InterfaceSpec
  import P = PolicySpec

  /** The events lead from one system to the other. */
  predicate Leads(s: System, es: seq<Event>, t: System) {
    IsRun(s, es, false) && Exec(s, es, false) == t
  }

  lemma {:induction false} LeadsOn(s: System, es: seq<Event>, t: System, e: Event)
    requires Leads(s, es, t) && Enabled(t, e)
    ensures Leads(s, es + [e], Next(t, e, false))
    decreases |es|
  {
    if es == [] {
      assert es + [e] == [e] && [e][1..] == [];
    } else {
      LeadsOn(Next(s, es[0], false), es[1..], t, e);
      assert (es + [e])[1..] == es[1..] + [e];
    }
  }

  // ---- One interface ----

  const NAME := "e"

  function Wan(status: WanStatus, link: LinkStatus, active: bool): WanInfo {
    WanInfo(NAME, true, 0, Primary, false, false, active, status, link, false)
  }

  function Ifc(wan: WanInfo, ip: IpInfo): Iface {
    Iface(wan, PhyUp, ip, TunnelInfo(false, false), TunnelInfo(false, false))
  }

  const Selected := P.Policy(P.PrimaryWanActive, true, 0, -1)

  function One(ifc: Iface, conn: Conn, phase: Phase): System {
    System([ifc], conn, Selected, true, [Thread(0, phase)])
  }

  const Begin := System([InitialIface], Conn(false, false), P.Policy(P.InterfaceDown, false, -1, -1), true, [])

  lemma ThenTick(es: seq<Event>, ifc: Iface, conn: Conn, st: I.WanState, o: I.Outcome)
    requires Leads(Begin, es, One(ifc, conn, Running(st)))
    ensures var m := I.Tick(I.Machine(true, st, false, ifc, conn), true, o);
            Leads(Begin, es + [TickThread(0, o)], One(m.ifc, m.conn, if m.running then Running(m.st) else Finished))
  {
    LeadsOn(Begin, es, One(ifc, conn, Running(st)), TickThread(0, o));
  }

  lemma ThenChange(es: seq<Event>, before: Iface, ifc: Iface, conn: Conn, st: I.WanState)
    requires Leads(Begin, es, One(before, conn, Running(st))) && EnvironmentMay(before, ifc)
    ensures Leads(Begin, es + [Change(0, ifc)], One(ifc, conn, Running(st)))
  {
    LeadsOn(Begin, es, One(before, conn, Running(st)), Change(0, ifc));
  }

  lemma ThenOffer4(es: seq<Event>, ifc: Iface, conn: Conn, st: I.WanState, msg: Ipv4Msg)
    requires Leads(Begin, es, One(ifc, conn, Running(st)))
    requires ifc.wan.name == msg.data.ifname && ifc.ip.box4 == None
    ensures Leads(Begin, es + [Offer4(msg)], One(ifc.(ip := ifc.ip.(box4 := Some(msg))), conn, Running(st)))
  {
    LeadsOn(Begin, es, One(ifc, conn, Running(st)), Offer4(msg));
  }

  lemma ThenOffer6(es: seq<Event>, ifc: Iface, conn: Conn, st: I.WanState, msg: Ipv6Msg)
    requires Leads(Begin, es, One(ifc, conn, Running(st)))
    requires ifc.wan.name == msg.data.ifname && ifc.ip.box6 == None
    ensures Leads(Begin, es + [Offer6(msg)], One(ifc.(ip := ifc.ip.(box6 := Some(msg))), conn, Running(st)))
  {
    LeadsOn(Begin, es, One(ifc, conn, Running(st)), Offer6(msg));
  }

  const NoIp := InitialIface.ip

  /** The interface is configured, selected, and its machine started. */
  lemma StartedRun() returns (es: seq<Event>)
    ensures Leads(Begin, es, One(Ifc(Wan(Initialising, LinkConfiguring, true), NoIp), Conn(false, false), Running(I.ConfiguringWan)))
  {
    var ifc := Ifc(Wan(Disabled, LinkDown, false), NoIp);
    es := [];
    LeadsOn(Begin, es, Begin, Change(0, ifc));
    es := es + [Change(0, ifc)];
    var s := Next(Begin, Change(0, ifc), false);
    SelectsOnly(s, ifc);
    LeadsOn(Begin, es, s, TickPolicy(true));
    es := es + [TickPolicy(true)];
    var t := Next(s, TickPolicy(true), false);
    LeadsOn(Begin, es, t, StartThread(0));
    es := es + [StartThread(0)];
  }

  lemma SelectsOnly(s: System, ifc: Iface)
    requires s == Begin.(table := [ifc]) && ifc == Ifc(Wan(Disabled, LinkDown, false), NoIp)
    ensures Next(s, TickPolicy(true), false) == One(Ifc(Wan(Disabled, LinkDown, true), NoIp), Conn(false, false), Spawned)
  {
    assert P.Best([ifc], true) == 0 by { assert P.BestOf([ifc], 0, true) == -1; }
  }

  // ---- A machine that ends while its interface stays selected ----

  /** The link goes down once and the machine ends: WAN is down, the selection stands, and by
      `WanSystem.StuckForever` no policy tick starts anything. */
  lemma StuckRun() returns (es: seq<Event>)
    ensures Initial(Begin) && IsRun(Begin, es, false)
    ensures var t := Exec(Begin, es, false);
            NoneLive(t) && StillSelected(t) && t.enable && SomeCandidate(t) && t.table[0].wan.status == Disabled
  {
    es := StartedRun();
    var conn, o := Conn(false, false), I.Outcome(true, true, false);
    var ifc := Ifc(Wan(Initialising, LinkDown, true), NoIp);
    ThenChange(es, Ifc(Wan(Initialising, LinkConfiguring, true), NoIp), ifc, conn, I.ConfiguringWan);
    es := es + [Change(0, ifc)];
    ThenTick(es, ifc, conn, I.ConfiguringWan, o);
    es := es + [TickThread(0, o)];
    ThenTick(es, ifc, conn, I.DeconfiguringWan, o);
    es := es + [TickThread(0, o)];
    var gone := Ifc(Wan(Disabled, LinkDown, false), NoIp);
    ThenTick(es, gone, conn, I.Exit, o);
    es := es + [TickThread(0, o)];
    SelectionStands(gone.(wan := gone.wan.(name := "")).(ip := I.ClearedIp));
  }

  lemma SelectionStands(ifc: Iface)
    requires ifc.wan.enable && ifc.phy == PhyUp && ifc.wan.priority == 0 && ifc.wan.kind == Primary
    ensures StillSelected(One(ifc, Conn(false, false), Finished)) && SomeCandidate(One(ifc, Conn(false, false), Finished))
  {
    assert P.Best([ifc], true) == 0 by { assert P.BestOf([ifc], 0, true) == -1; }
    assert P.Candidate([ifc][0], true);
  }

  // ---- A machine that strands IPv6 ----

  const Lease4 := Ipv4Data(NAME, "a", "", "", "", "")
  const Lease6 := EmptyIpv6.(ifname := NAME)

  function Up(ip: IpInfo): Iface {
    Ifc(Wan(WanStatus.Up, LinkUp, true), ip)
  }

  /** From the started machine to the IPv4 lease. */
  lemma LeasedRun() returns (es: seq<Event>)
    ensures Leads(Begin, es, One(Up(I.ClearedIp.(ipv4Up := true, ipv4 := Lease4)), Conn(true, false), Running(I.Ipv4Leased)))
  {
    es := StartedRun();
    var conn, o := Conn(false, false), I.Outcome(true, true, false);
    var ifc := Ifc(Wan(Initialising, LinkUp, true), NoIp);
    ThenChange(es, Ifc(Wan(Initialising, LinkConfiguring, true), NoIp), ifc, conn, I.ConfiguringWan);
    es := es + [Change(0, ifc)];
    ThenTick(es, ifc, conn, I.ConfiguringWan, o);
    es := es + [TickThread(0, o)];
    ThenTick(es, Ifc(Wan(Validating, LinkUp, true), NoIp), conn, I.ValidatingWan, o);
    es := es + [TickThread(0, o)];
    var msg := Ipv4Msg(true, false, Lease4);
    ThenOffer4(es, Up(I.ClearedIp), conn, I.ObtainingIp, msg);
    es := es + [Offer4(msg)];
    ThenTick(es, Up(I.ClearedIp.(box4 := Some(msg))), conn, I.ObtainingIp, o);
    es := es + [TickThread(0, o)];
  }

  /** A run from the beginning into the stranded state: both families are leased, both expiry
      messages arrive between two ticks, and the machine is left obtaining addresses with
      `ipv6_connection_state` up. */
  lemma StrandedRun() returns (es: seq<Event>)
    ensures Initial(Begin) && IsRun(Begin, es, false)
    ensures var t := Exec(Begin, es, false);
            t.conn == Conn(false, true) && t.threads == [Thread(0, Running(I.ObtainingIp))]
  {
    es := LeasedRun();
    var o := I.Outcome(true, true, false);
    var ip := I.ClearedIp.(ipv4Up := true, ipv4 := Lease4);
    var add := Ipv6Msg(false, true, true, false, false, Lease6);
    ThenOffer6(es, Up(ip), Conn(true, false), I.Ipv4Leased, add);
    es := es + [Offer6(add)];
    ThenTick(es, Up(ip.(box6 := Some(add))), Conn(true, false), I.Ipv4Leased, o);
    es := es + [TickThread(0, o)];
    var dual := ip.(ipv6Up := true, ipv6 := Lease6);
    var end4, end6 := Ipv4Msg(false, true, Lease4), Ipv6Msg(true, false, false, false, false, Lease6);
    ThenOffer4(es, Up(dual), Conn(true, true), I.DualStackActive, end4);
    es := es + [Offer4(end4)];
    ThenOffer6(es, Up(dual.(box4 := Some(end4))), Conn(true, true), I.DualStackActive, end6);
    es := es + [Offer6(end6)];
    var last := Up(dual.(box4 := Some(end4), box6 := Some(end6)));
    ThenTick(es, last, Conn(true, true), I.DualStackActive, o);
    es := es + [TickThread(0, o)];
    BothLeasesDroppedStrandsIpv6(I.Machine(true, I.DualStackActive, false, last, Conn(true, true)), o);
  }
}
