// The records shared by the policy thread and the interface state machines
// (source/TR-181/include/wanmgr_dml.h), as values.

module WanTypes {

  datatype Option<+T> = None | Some(value: T)

  datatype PhyStatus = PhyDown | PhyInitializing | PhyUp

  datatype LinkStatus = LinkDown | LinkConfiguring | LinkUp

  datatype WanStatus = Disabled | Initialising | Validating | Up

  datatype WanType = Unconfigured | Primary | Secondary

  /** The part of WANMGR_IPV4_DATA that a DHCPv4 message fills. */
  datatype Ipv4Data = Ipv4Data(
    ifname: string, ip: string, mask: string, gateway: string, dnsServer: string, dnsServer1: string)

  datatype Ipv6Data = Ipv6Data(
    ifname: string, address: string, pdIfAddress: string, nameserver: string, nameserver1: string,
    domainName: string, sitePrefix: string, prefixPltime: nat, prefixVltime: nat, sitePrefixOld: string)

  /** ipc_dhcpv4_data_t: one event of the DHCPv4 client. */
  datatype Ipv4Msg = Ipv4Msg(addressAssigned: bool, isExpired: bool, data: Ipv4Data)

  /** ipc_dhcpv6_data_t: one event of the DHCPv6 client. `addrAdd` and `prefixAdd`
      are the commands IFADDRCONF_ADD (true) and IFADDRCONF_REMOVE (false). */
  datatype Ipv6Msg = Ipv6Msg(
    isExpired: bool, addrAssigned: bool, addrAdd: bool, prefixAssigned: bool, prefixAdd: bool, data: Ipv6Data)

  const EmptyIpv4 := Ipv4Data("", "", "", "", "", "")
  const EmptyIpv6 := Ipv6Data("", "", "", "", "", "", "", 0, 0, "")

  /** DML_WANIFACE_INFO: configuration and state of the WAN link. */
  datatype WanInfo = WanInfo(
    name: string, enable: bool, priority: int, kind: WanType, enableMapt: bool, enableDslite: bool,
    activeLink: bool, status: WanStatus, linkStatus: LinkStatus, refresh: bool)

  /** DML_WANIFACE_IP: address state and the two one-slot mailboxes. A status that is not
      UP is DOWN. */
  datatype IpInfo = IpInfo(
    ipv4Up: bool, ipv6Up: bool, ipv4Changed: bool, ipv6Changed: bool,
    ipv4: Ipv4Data, ipv6: Ipv6Data, box4: Option<Ipv4Msg>, box6: Option<Ipv6Msg>)

  /** DML_WANIFACE_MAP and DML_WANIFACE_DSLITE. */
  datatype TunnelInfo = TunnelInfo(up: bool, changed: bool)

  /** DML_WAN_IFACE: the record of one WAN interface. */
  datatype Iface = Iface(wan: WanInfo, phy: PhyStatus, ip: IpInfo, mapt: TunnelInfo, dslite: TunnelInfo)

  /** The record WanMgr_IfaceData_Init writes. */
  const InitialIface := Iface(
    WanInfo("", false, -1, Unconfigured, false, false, false, Disabled, LinkDown, false),
    PhyDown,
    IpInfo(false, false, false, false, EmptyIpv4, EmptyIpv6, None, None),
    TunnelInfo(false, false), TunnelInfo(false, false))

  /** The two sysevents `ipv4_connection_state` and `ipv6_connection_state`: true is "up".
      They are shared by all interface machines. */
  datatype Conn = Conn(v4: bool, v6: bool)
}
