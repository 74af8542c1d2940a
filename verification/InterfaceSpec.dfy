// What one tick of the interface state machine does to the interface record and the
// connection-state sysevents (source/WanManager/wanmgr_interface_sm.c), as functions
// on values. The class in InterfaceMachine.dfy is proved against these functions; the
// lemmas about whole runs are about them too.

module InterfaceSpec {
  import opened WanTypes

  datatype WanState =
    | Exit
    | ConfiguringWan
    | ValidatingWan
    | ObtainingIp
    | Ipv4Leased
    | Ipv6Leased
    | DualStackActive
    | Ipv4OverIpv6Active
    | RefreshingWan
    | DeconfiguringWan

  /** Results of calls into the platform that the code branches on: whether a broadcast
      address could be computed for the lease, whether the LAN bridge has its IPv6
      address, and whether the WAN interface has a globally unique IPv6 address. */
  datatype Outcome = Outcome(broadcastOk: bool, lanReady: bool, globalAddr: bool)

  datatype Machine = Machine(running: bool, st: WanState, wanEnable: bool, ifc: Iface, conn: Conn)

  // ---- Actions ----

  function ConnectionDown(ip: IpInfo): IpInfo {
    ip.(ipv4Up := false, ipv4Changed := false, ipv4 := ip.ipv4.(ip := ""))
  }

  function ForgetIpv6(data: Ipv6Data): Ipv6Data {
    data.(address := "", pdIfAddress := "", sitePrefix := "", nameserver := "", nameserver1 := "")
  }

  function ConnectionIpv6Down(ifc: Iface): Iface {
    ifc.(ip := ifc.ip.(ipv6Up := false, ipv6Changed := false, ipv6 := ForgetIpv6(ifc.ip.ipv6)),
         mapt := TunnelInfo(false, false))
  }

  /** The address state WanManager_ClearDHCPData leaves. */
  const ClearedIp := IpInfo(false, false, false, false, EmptyIpv4, EmptyIpv6, None, None)

  /** A DHCPv4 message brings something new: one of the five compared fields differs. */
  predicate Ipv4Differs(a: Ipv4Data, b: Ipv4Data) {
    a.ip != b.ip || a.mask != b.mask || a.gateway != b.gateway ||
    a.dnsServer != b.dnsServer || a.dnsServer1 != b.dnsServer1
  }

  predicate Ipv6Differs(a: Ipv6Data, b: Ipv6Data) {
    a.address != b.address || a.pdIfAddress != b.pdIfAddress || a.nameserver != b.nameserver ||
    a.nameserver1 != b.nameserver1 || a.sitePrefix != b.sitePrefix
  }

  function HandleIpv4(ip: IpInfo): IpInfo {
    match ip.box4
    case None => ip
    case Some(msg) =>
      if msg.addressAssigned then
        ip.(ipv4Changed := ip.ipv4Changed || Ipv4Differs(ip.ipv4, msg.data), ipv4 := msg.data, ipv4Up := true, box4 := None)
      else if msg.isExpired then
        ConnectionDown(ip.(ipv4 := msg.data, box4 := None))
      else
        ip.(box4 := None)
  }

  /** The text before the first '/', or the whole text. */
  function BeforeSlash(s: string): (r: string)
    ensures |r| <= |s|
  {
    if s == "" || s[0] == '/' then "" else [s[0]] + BeforeSlash(s[1..])
  }

  function Truncate(s: string, n: nat): string {
    if |s| <= n then s else s[..n]
  }

  /** The address `<prefix>1/64` put on the LAN bridge, cut to the 48-byte field. */
  function BridgeAddress(msg: Ipv6Data): string {
    var prefix := BeforeSlash(msg.sitePrefix);
    if |prefix| < |msg.sitePrefix| && |prefix| < 64
    then Truncate(Truncate(prefix + "1", 63) + "/64", 47)
    else msg.pdIfAddress
  }

  predicate PrefixAdded(msg: Ipv6Msg) {
    && msg.prefixAssigned && msg.data.sitePrefix != ""
    && msg.prefixAdd && msg.data.prefixPltime != 0 && msg.data.prefixVltime != 0
  }

  predicate PrefixWithdrawn(msg: Ipv6Msg, current: Ipv6Data) {
    && msg.prefixAssigned && msg.data.sitePrefix != "" && !PrefixAdded(msg)
    && current.sitePrefix == msg.data.sitePrefix
  }

  predicate Ipv6Connects(msg: Ipv6Msg, globalAddr: bool) {
    (msg.addrAssigned && msg.addrAdd) || PrefixAdded(msg) || (!msg.addrAssigned && globalAddr)
  }

  /** The lease a message of the DHCPv6 client describes. */
  function LeaseOf(msg: Ipv6Msg): Ipv6Data {
    if PrefixAdded(msg) then msg.data.(pdIfAddress := BridgeAddress(msg.data)) else msg.data
  }

  function StoreIpv6(ip: IpInfo, data: Ipv6Data): IpInfo {
    ip.(ipv6Changed := ip.ipv6Changed || Ipv6Differs(data, ip.ipv6), ipv6 := data, ipv6Up := true)
  }

  function HandleIpv6(ifc: Iface, o: Outcome): Iface {
    match ifc.ip.box6
    case None => ifc
    case Some(msg) =>
      var taken := ifc.(ip := ifc.ip.(box6 := None));
      if msg.isExpired then
        ConnectionIpv6Down(taken.(ip := taken.ip.(ipv6 := msg.data)))
      else
        var base := if PrefixWithdrawn(msg, taken.ip.ipv6) then ConnectionIpv6Down(taken) else taken;
        if Ipv6Connects(msg, o.globalAddr)
        then base.(ip := StoreIpv6(base.ip, LeaseOf(msg)))
        else base
  }

  // ---- Transitions ----

  function Start(m: Machine): Machine {
    m.(st := ConfiguringWan,
       ifc := m.ifc.(wan := m.ifc.wan.(status := Initialising, linkStatus := LinkConfiguring),
                     ip := m.ifc.ip.(ipv4Up := false, ipv6Up := false),
                     mapt := m.ifc.mapt.(up := false), dslite := m.ifc.dslite.(up := false)))
  }

  function Validated(m: Machine): Machine {
    m.(st := ObtainingIp, ifc := m.ifc.(wan := m.ifc.wan.(status := Up), ip := ClearedIp))
  }

  function Refreshing(m: Machine): Machine {
    m.(st := RefreshingWan, ifc := m.ifc.(wan := m.ifc.wan.(linkStatus := LinkConfiguring, refresh := false)))
  }

  function Refreshed(m: Machine): Machine {
    m.(st := ObtainingIp, ifc := m.ifc.(ip := ClearedIp))
  }

  function Ipv4UpT(m: Machine, o: Outcome): Machine {
    var v4 := m.conn.v4 || (m.ifc.wan.activeLink && o.broadcastOk);
    m.(ifc := m.ifc.(ip := m.ifc.ip.(ipv4Changed := false, ipv4Up := true)),
       conn := m.conn.(v4 := v4),
       st := if m.ifc.ip.ipv6Up && m.conn.v6 then DualStackActive else Ipv4Leased)
  }

  function Ipv4DownT(m: Machine): Machine {
    m.(ifc := m.ifc.(ip := ConnectionDown(m.ifc.ip)),
       conn := m.conn.(v4 := false),
       st := if m.ifc.ip.ipv6Up && m.conn.v6 then Ipv6Leased else ObtainingIp)
  }

  function Ipv6UpT(m: Machine): Machine {
    var v6 := m.conn.v6 || m.ifc.wan.activeLink;
    m.(ifc := m.ifc.(ip := m.ifc.ip.(ipv6Changed := false, ipv6Up := true)),
       conn := m.conn.(v6 := v6),
       st := if m.ifc.ip.ipv4Up && m.conn.v4 then DualStackActive else Ipv6Leased)
  }

  function Ipv6DownT(m: Machine): Machine {
    m.(ifc := ConnectionIpv6Down(m.ifc),
       conn := m.conn.(v6 := false),
       st := if m.ifc.ip.ipv4Up && m.conn.v4 then Ipv4Leased else ObtainingIp)
  }

  function DualStackDownT(m: Machine): Machine {
    Ipv6DownT(Ipv4DownT(m)).(st := ObtainingIp)
  }

  function ExitT(m: Machine): Machine {
    m.(st := Exit, ifc := m.ifc.(wan := m.ifc.wan.(status := Disabled, refresh := false, activeLink := false)))
  }

  // ---- States ----

  /** The guard that every connected state checks first. */
  predicate LinkLost(m: Machine) {
    !m.wanEnable || !m.ifc.wan.activeLink || m.ifc.phy == PhyDown || m.ifc.wan.linkStatus == LinkDown
  }

  /** DS-Lite or MAP-T asks for the IPv4-over-IPv6 transition. */
  predicate TunnelWanted(ifc: Iface) {
    ifc.wan.activeLink && ((ifc.wan.enableDslite && ifc.dslite.up) || (ifc.wan.enableMapt && ifc.mapt.up))
  }

  function StateConfiguring(m: Machine): Machine {
    if LinkLost(m) then m.(st := DeconfiguringWan)
    else if m.ifc.wan.linkStatus == LinkUp then m.(st := ValidatingWan, ifc := m.ifc.(wan := m.ifc.wan.(status := Validating)))
    else m.(st := ConfiguringWan)
  }

  function StateValidating(m: Machine): Machine {
    if LinkLost(m) then m.(st := DeconfiguringWan)
    else if m.ifc.wan.linkStatus == LinkConfiguring then m.(st := ConfiguringWan)
    else Validated(m)
  }

  function StateRefreshing(m: Machine): Machine {
    if LinkLost(m) then m.(st := DeconfiguringWan)
    else if m.ifc.wan.linkStatus == LinkUp then (if m.ifc.wan.refresh then Refreshing(m) else Refreshed(m))
    else m.(st := RefreshingWan)
  }

  /** The answer to a leased IPv6 family in a state that has no IPv6 yet: a changed lease
      is first announced to the LAN, then the bridge address is awaited. */
  function AwaitIpv6(m: Machine, o: Outcome): Machine {
    if !m.ifc.ip.ipv6Up then m
    else if m.ifc.ip.ipv6Changed then m.(ifc := m.ifc.(ip := m.ifc.ip.(ipv6Changed := false)))
    else if o.lanReady then Ipv6UpT(m)
    else m
  }

  function StateObtaining(m: Machine, o: Outcome): Machine {
    if LinkLost(m) then m.(st := DeconfiguringWan)
    else if m.ifc.wan.linkStatus == LinkConfiguring || m.ifc.wan.refresh then StateRefreshing(m)
    else if m.ifc.ip.ipv4Up then Ipv4UpT(m, o)
    else AwaitIpv6(m, o)
  }

  function StateIpv4Leased(m: Machine, o: Outcome): Machine {
    if LinkLost(m) || !m.ifc.ip.ipv4Up || m.ifc.ip.ipv4Changed then Ipv4DownT(m)
    else AwaitIpv6(m, o)
  }

  function StateIpv6Leased(m: Machine, o: Outcome): Machine {
    if LinkLost(m) || !m.ifc.ip.ipv6Up || m.ifc.ip.ipv6Changed then Ipv6DownT(m)
    else if m.ifc.ip.ipv4Up then Ipv4UpT(m, o)
    else if TunnelWanted(m.ifc) then m.(st := Ipv4Leased)
    else m
  }

  function StateDualStack(m: Machine): Machine {
    if LinkLost(m) then DualStackDownT(m)
    else if !m.ifc.ip.ipv4Up then Ipv4DownT(m)
    else if !m.ifc.ip.ipv6Up then Ipv6DownT(m)
    else if TunnelWanted(m.ifc) then m.(st := Ipv4Leased)
    else m
  }

  function StateIpv4OverIpv6(m: Machine): Machine {
    if LinkLost(m) || !m.ifc.ip.ipv6Up || m.ifc.ip.ipv6Changed ||
       !m.ifc.wan.enableDslite || !m.ifc.dslite.up || m.ifc.dslite.changed ||
       !m.ifc.wan.enableMapt || !m.ifc.mapt.up || m.ifc.mapt.changed
    then m.(st := Ipv4Leased)
    else m
  }

  function StateDeconfiguring(m: Machine): Machine {
    if m.ifc.wan.linkStatus == LinkDown then ExitT(m) else m
  }

  function StateExit(m: Machine): Machine {
    m.(running := false, st := Exit, ifc := m.ifc.(wan := m.ifc.wan.(name := ""), ip := ClearedIp))
  }

  /** The mailboxes are emptied, IPv4 first, before the state function runs. */
  function HandleMessages(m: Machine, o: Outcome): Machine {
    m.(ifc := HandleIpv6(m.ifc.(ip := HandleIpv4(m.ifc.ip)), o))
  }

  function RunState(m: Machine, o: Outcome): Machine {
    match m.st
    case ConfiguringWan => StateConfiguring(m)
    case ValidatingWan => StateValidating(m)
    case ObtainingIp => StateObtaining(m, o)
    case Ipv4Leased => StateIpv4Leased(m, o)
    case Ipv6Leased => StateIpv6Leased(m, o)
    case DualStackActive => StateDualStack(m)
    case Ipv4OverIpv6Active => StateIpv4OverIpv6(m)
    case RefreshingWan => StateRefreshing(m)
    case DeconfiguringWan => StateDeconfiguring(m)
    case Exit => StateExit(m)
  }

  /** One tick: read the global enable, empty the mailboxes, run the state. */
  function Tick(m: Machine, globalEnable: bool, o: Outcome): Machine {
    RunState(HandleMessages(m.(wanEnable := globalEnable), o), o)
  }
}
