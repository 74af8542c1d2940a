// What one DHCP message leaves in the interface record, told field by field, and what renewals
// of a DHCPv6 lease do to its connection.

module MessageLemmas {
  import opened WanTypes
  import opened InterfaceSpec
  import opened InterfaceLemmas

  // ---- DHCPv4 ----

  /** A message of the DHCPv4 client is taken from its slot. One that assigns an address stores
      its lease as it is, and raises the change flag exactly if one of the five compared fields
      is new; an expiry leaves IPv4 down and no address; any other does nothing. */
  lemma Ipv4MessageStored(ip: IpInfo, msg: Ipv4Msg)
    requires ip.box4 == Some(msg)
    ensures var t := HandleIpv4(ip);
            && t.box4 == None && t.box6 == ip.box6
            && t.ipv6Up == ip.ipv6Up && t.ipv6Changed == ip.ipv6Changed && t.ipv6 == ip.ipv6
            && (msg.addressAssigned ==>
                  t.ipv4Up && t.ipv4 == msg.data && (t.ipv4Changed <==> ip.ipv4Changed || !SameLease(ip.ipv4, msg.data)))
            && (!msg.addressAssigned && msg.isExpired ==>
                  && !t.ipv4Up && !t.ipv4Changed && t.ipv4.ip == "" && t.ipv4.ifname == msg.data.ifname
                  && t.ipv4.mask == msg.data.mask && t.ipv4.gateway == msg.data.gateway
                  && t.ipv4.dnsServer == msg.data.dnsServer && t.ipv4.dnsServer1 == msg.data.dnsServer1)
            && (!msg.addressAssigned && !msg.isExpired ==>
                  t.ipv4Up == ip.ipv4Up && t.ipv4Changed == ip.ipv4Changed && t.ipv4 == ip.ipv4)
  {
  }

  // ---- DHCPv6 ----

  /** The message delegates a prefix with both lifetimes. */
  predicate Delegates(msg: Ipv6Msg) {
    && msg.prefixAssigned && |msg.data.sitePrefix| > 0
    && msg.prefixAdd && msg.data.prefixPltime > 0 && msg.data.prefixVltime > 0
  }

  /** The message takes the prefix `stored` back, by the command or by a zero lifetime. */
  predicate TakesBack(msg: Ipv6Msg, stored: Ipv6Data) {
    && msg.prefixAssigned && |msg.data.sitePrefix| > 0 && msg.data.sitePrefix == stored.sitePrefix
    && (!msg.prefixAdd || msg.data.prefixPltime == 0 || msg.data.prefixVltime == 0)
  }

  /** The message brings IPv6 up: a prefix, an address, or a trigger that finds one. */
  predicate Connects(msg: Ipv6Msg, o: Outcome) {
    Delegates(msg) || (msg.addrAssigned && msg.addrAdd) || (!msg.addrAssigned && o.globalAddr)
  }

  /** `i` is where the first slash stands. */
  predicate FirstSlash(s: string, i: nat) {
    i < |s| && s[i] == '/' && forall j :: 0 <= j < i ==> s[j] != '/'
  }

  predicate NoSlash(s: string) {
    forall j :: 0 <= j < |s| ==> s[j] != '/'
  }

  /** The text as a field of 48 bytes holds it. */
  function Field48(s: string): string {
    if |s| > 47 then s[..47] else s
  }

  /** `pd` is the bridge address for a delegated prefix: the text before its slash, then "1/64",
      in a 48-byte field; without a slash in the first 64 places it is `own`, as sent. */
  ghost predicate IsBridgeAddress(site: string, own: string, pd: string) {
    && (forall i: nat :: FirstSlash(site, i) ==> pd == if i < 64 then Field48(site[..i] + "1/64") else own)
    && (NoSlash(site) ==> pd == own)
  }

  /** The record describes what the message sends: every field is the message's, but for the
      bridge address that a delegated prefix yields. */
  ghost predicate Describes(d: Ipv6Data, msg: Ipv6Msg) {
    && d.ifname == msg.data.ifname && d.address == msg.data.address
    && d.nameserver == msg.data.nameserver && d.nameserver1 == msg.data.nameserver1
    && d.domainName == msg.data.domainName && d.sitePrefix == msg.data.sitePrefix
    && d.prefixPltime == msg.data.prefixPltime && d.prefixVltime == msg.data.prefixVltime
    && d.sitePrefixOld == msg.data.sitePrefixOld
    && (if Delegates(msg) then IsBridgeAddress(msg.data.sitePrefix, msg.data.pdIfAddress, d.pdIfAddress)
        else d.pdIfAddress == msg.data.pdIfAddress)
  }

  /** The same in the five compared fields. */
  predicate SameLease6(a: Ipv6Data, b: Ipv6Data) {
    && a.address == b.address && a.pdIfAddress == b.pdIfAddress
    && a.nameserver == b.nameserver && a.nameserver1 == b.nameserver1 && a.sitePrefix == b.sitePrefix
  }

  lemma {:induction false} BeforeFirstSlash(s: string, i: nat)
    requires FirstSlash(s, i)
    ensures BeforeSlash(s) == s[..i]
  {
    if i > 0 {
      assert s[0] != '/';
      assert forall j :: 0 <= j < i - 1 ==> s[1..][j] == s[j + 1];
      BeforeFirstSlash(s[1..], i - 1);
      assert [s[0]] + s[1..][..i - 1] == s[..i];
    }
  }

  lemma {:induction false} WithoutSlash(s: string)
    requires NoSlash(s)
    ensures BeforeSlash(s) == s
  {
    if s != "" {
      assert NoSlash(s[1..]);
      WithoutSlash(s[1..]);
      assert s == [s[0]] + s[1..];
    }
  }

  lemma Cut48(p: string)
    requires |p| < 64
    ensures Truncate(Truncate(p + "1", 63) + "/64", 47) == Field48(p + "1/64")
  {
    assert (p + "1") + "/64" == p + "1/64";
    if |p| == 63 {
      assert (p + "1")[..63] == p;
      assert (p + "/64")[..47] == p[..47] == (p + "1/64")[..47];
    }
  }

  lemma BridgeAddressIs(d: Ipv6Data)
    ensures IsBridgeAddress(d.sitePrefix, d.pdIfAddress, BridgeAddress(d))
  {
    forall i: nat | FirstSlash(d.sitePrefix, i)
      ensures BridgeAddress(d) == if i < 64 then Field48(d.sitePrefix[..i] + "1/64") else d.pdIfAddress
    {
      BeforeFirstSlash(d.sitePrefix, i);
      if i < 64 { Cut48(d.sitePrefix[..i]); }
    }
    if NoSlash(d.sitePrefix) { WithoutSlash(d.sitePrefix); }
  }

  /** There is only one such address. */
  lemma BridgeAddressUnique(site: string, own: string, a: string, b: string)
    requires IsBridgeAddress(site, own, a) && IsBridgeAddress(site, own, b)
    ensures a == b
  {
    if i: nat :| i < |site| && site[i] == '/' {
      var k := Earliest(site, i);
      assert FirstSlash(site, k);
    }
  }

  lemma {:induction false} Earliest(s: string, i: nat) returns (k: nat)
    requires i < |s| && s[i] == '/'
    ensures FirstSlash(s, k)
    decreases i
  {
    if j: nat :| j < i && s[j] == '/' {
      k := Earliest(s, j);
    } else {
      k := i;
    }
  }

  lemma DescribedAlike(a: Ipv6Data, b: Ipv6Data, msg: Ipv6Msg)
    requires Describes(a, msg) && Describes(b, msg)
    ensures a == b
  {
    if Delegates(msg) {
      BridgeAddressUnique(msg.data.sitePrefix, msg.data.pdIfAddress, a.pdIfAddress, b.pdIfAddress);
    }
  }

  /** The rest of the record, which no DHCPv6 message touches; MAP-T goes only with an IPv6
      connection that is lost. */
  predicate KeepsRest(before: Iface, after: Iface) {
    && after.wan == before.wan && after.phy == before.phy && after.dslite == before.dslite
    && after.ip.box4 == before.ip.box4 && after.ip.ipv4 == before.ip.ipv4
    && after.ip.ipv4Up == before.ip.ipv4Up && after.ip.ipv4Changed == before.ip.ipv4Changed
  }

  /** A message that connects is stored, and IPv6 is up. The change flag rises exactly if one of
      the five compared fields is new; a message that takes the stored prefix back as well is
      compared with nothing. */
  lemma Ipv6MessageStored(ifc: Iface, msg: Ipv6Msg, o: Outcome)
    requires ifc.ip.box6 == Some(msg) && !msg.isExpired && Connects(msg, o)
    ensures var t := HandleIpv6(ifc, o);
            && t.ip.box6 == None && t.ip.ipv6Up && Describes(t.ip.ipv6, msg) && KeepsRest(ifc, t)
            && (TakesBack(msg, ifc.ip.ipv6) ==> t.ip.ipv6Changed && t.mapt == TunnelInfo(false, false))
            && (!TakesBack(msg, ifc.ip.ipv6) ==>
                  t.mapt == ifc.mapt && (t.ip.ipv6Changed <==> ifc.ip.ipv6Changed || !SameLease6(ifc.ip.ipv6, t.ip.ipv6)))
  {
    BridgeAddressIs(msg.data);
  }

  /** An expiry, and a message that takes the stored prefix back without connecting, leave IPv6
      down and the five fields empty; any other leaves the lease as it was. */
  lemma Ipv6MessageForgets(ifc: Iface, msg: Ipv6Msg, o: Outcome)
    requires ifc.ip.box6 == Some(msg) && (msg.isExpired || !Connects(msg, o))
    ensures var t := HandleIpv6(ifc, o);
            && t.ip.box6 == None && KeepsRest(ifc, t)
            && (msg.isExpired || TakesBack(msg, ifc.ip.ipv6) ==>
                  !t.ip.ipv6Up && !t.ip.ipv6Changed && NoLease6(t.ip.ipv6) && t.mapt == TunnelInfo(false, false))
            && (!msg.isExpired && !TakesBack(msg, ifc.ip.ipv6) ==>
                  && t.ip.ipv6Up == ifc.ip.ipv6Up && t.ip.ipv6Changed == ifc.ip.ipv6Changed
                  && t.ip.ipv6 == ifc.ip.ipv6 && t.mapt == ifc.mapt)
            && (var kept := if msg.isExpired then msg.data else ifc.ip.ipv6;
                && t.ip.ipv6.ifname == kept.ifname && t.ip.ipv6.domainName == kept.domainName
                && t.ip.ipv6.prefixPltime == kept.prefixPltime && t.ip.ipv6.prefixVltime == kept.prefixVltime
                && t.ip.ipv6.sitePrefixOld == kept.sitePrefixOld)
  {
  }

  // ---- Renewals of a DHCPv6 lease ----

  /** The message handler of a tick, IPv4 first, leaves the IPv6 part to the IPv6 message. */
  lemma SeenIpv6(m: Machine, globalEnable: bool, o: Outcome)
    ensures var h := Seen(m, globalEnable, o);
            && h.st == m.st && h.conn == m.conn && h.ifc.wan == m.ifc.wan && h.ifc.phy == m.ifc.phy
            && (m.ifc.ip.box6 == None ==>
                  && h.ifc.ip.ipv6Up == m.ifc.ip.ipv6Up && h.ifc.ip.ipv6Changed == m.ifc.ip.ipv6Changed
                  && h.ifc.ip.ipv6 == m.ifc.ip.ipv6)
  {
  }

  /** In IPV6_LEASED a message takes IPv6 down in the same tick exactly if it is an expiry, takes
      the stored prefix back, or connects with a lease that differs in one of the five fields. */
  lemma Ipv6RenewalTearsDownIff(m: Machine, globalEnable: bool, o: Outcome, msg: Ipv6Msg)
    requires m.st == Ipv6Leased && m.ifc.ip.box6 == Some(msg) && m.ifc.ip.ipv6Up && !m.ifc.ip.ipv6Changed
    requires !MustStop(Reading(m, globalEnable)) && Ipv4Held(m.st, m.conn)
    ensures var t, h, stored := Tick(m, globalEnable, o), Seen(m, globalEnable, o), m.ifc.ip.ipv6;
            && (Ipv6TornDown(t) <==>
                  msg.isExpired || TakesBack(msg, stored) || (Connects(msg, o) && !SameLease6(stored, h.ifc.ip.ipv6)))
            && (!msg.isExpired && Connects(msg, o) ==> Describes(h.ifc.ip.ipv6, msg))
            && (!Ipv6TornDown(t) ==>
                  t.ifc.ip.ipv6Up && SameLease6(stored, t.ifc.ip.ipv6) && t.conn.v6 == m.conn.v6)
  {
    var ifc := m.ifc.(ip := HandleIpv4(m.ifc.ip));
    assert ifc.ip.box6 == Some(msg) && ifc.ip.ipv6 == m.ifc.ip.ipv6;
    if !msg.isExpired && Connects(msg, o) {
      Ipv6MessageStored(ifc, msg, o);
    } else {
      Ipv6MessageForgets(ifc, msg, o);
    }
    StopsIff(m, globalEnable, o);
    SeenIpv6(m, globalEnable, o);
  }

  /** The machine holds the IPv6 lease `lease`, configured. */
  predicate HoldsLease6(m: Machine, lease: Ipv6Data) {
    && (m.st == Ipv4Leased || m.st == Ipv6Leased || m.st == DualStackActive)
    && m.conn.v6 && m.ifc.ip.ipv6Up && !m.ifc.ip.ipv6Changed && SameLease6(lease, m.ifc.ip.ipv6)
  }

  /** What the world may do before a tick: anything that leaves the link guards satisfied and
      the IPv6 state alone; the DHCPv6 message, if there is one, is `msg` again. IPv4, DS-Lite
      and MAP-T are free. */
  predicate RenewedBeforeTick(before: Iface, ifc: Iface, msg: Ipv6Msg) {
    && ifc.ip.ipv6Up == before.ip.ipv6Up && ifc.ip.ipv6Changed == before.ip.ipv6Changed && ifc.ip.ipv6 == before.ip.ipv6
    && ifc.wan.activeLink && ifc.phy != PhyDown && ifc.wan.linkStatus != LinkDown
    && (ifc.ip.box6 == None || ifc.ip.box6 == Some(msg))
  }

  predicate RenewalSteps(m: Machine, steps: seq<(Iface, Outcome)>, msg: Ipv6Msg)
    decreases |steps|
  {
    steps != [] ==>
      && RenewedBeforeTick(m.ifc, steps[0].0, msg)
      && RenewalSteps(Tick(m.(ifc := steps[0].0), true, steps[0].1), steps[1..], msg)
  }

  /** The same message again: the stored lease still describes it. */
  lemma SameMessageAgain(ifc: Iface, msg: Ipv6Msg, o: Outcome, lease: Ipv6Data)
    requires ifc.ip.box6 == Some(msg) && !msg.isExpired && !TakesBack(msg, msg.data) && Describes(lease, msg)
    requires ifc.ip.ipv6Up && !ifc.ip.ipv6Changed && SameLease6(lease, ifc.ip.ipv6)
    ensures var t := HandleIpv6(ifc, o); t.ip.ipv6Up && !t.ip.ipv6Changed && SameLease6(lease, t.ip.ipv6)
  {
    assert !TakesBack(msg, ifc.ip.ipv6);
    if Connects(msg, o) {
      Ipv6MessageStored(ifc, msg, o);
      DescribedAlike(lease, HandleIpv6(ifc, o).ip.ipv6, msg);
    } else {
      Ipv6MessageForgets(ifc, msg, o);
    }
  }

  lemma RenewedTickKeepsLease6(m: Machine, ifc: Iface, o: Outcome, msg: Ipv6Msg, lease: Ipv6Data)
    requires HoldsLease6(m, lease) && RenewedBeforeTick(m.ifc, ifc, msg)
    requires !msg.isExpired && !TakesBack(msg, msg.data) && Describes(lease, msg)
    ensures HoldsLease6(Tick(m.(ifc := ifc), true, o), lease)
  {
    var n := m.(ifc := ifc);
    var h := Seen(n, true, o);
    SeenIpv6(n, true, o);
    if ifc.ip.box6 != None { SameMessageAgain(ifc.(ip := HandleIpv4(ifc.ip)), msg, o, lease); }
    assert h.ifc.ip.ipv6Up && !h.ifc.ip.ipv6Changed && SameLease6(lease, h.ifc.ip.ipv6) && !MustStop(h);
  }

  /** Any number of identical DHCPv6 messages, with any IPv4 and tunnel changes around them,
      never takes IPv6 down, unless the message takes its own prefix back. */
  lemma {:induction false} Ipv6RenewalsNeverTearDown(m: Machine, steps: seq<(Iface, Outcome)>, msg: Ipv6Msg, lease: Ipv6Data)
    requires HoldsLease6(m, lease) && Describes(lease, msg) && !msg.isExpired && !TakesBack(msg, msg.data)
    requires RenewalSteps(m, steps, msg)
    ensures HoldsLease6(HealthyRun(m, steps), lease)
    decreases |steps|
  {
    if steps != [] {
      RenewedTickKeepsLease6(m, steps[0].0, steps[0].1, msg, lease);
      Ipv6RenewalsNeverTearDown(Tick(m.(ifc := steps[0].0), true, steps[0].1), steps[1..], msg, lease);
    }
  }

  /** That exception is exact: in IPV6_LEASED the message that brought the lease takes it down
      when it comes again if and only if it takes its own prefix back, as one does that adds an
      address and sends its prefix with a zero lifetime. */
  lemma SameMessageTearsDownIff(m: Machine, globalEnable: bool, o: Outcome, msg: Ipv6Msg)
    requires m.st == Ipv6Leased && m.ifc.ip.box6 == Some(msg) && m.ifc.ip.ipv6Up && !m.ifc.ip.ipv6Changed
    requires !MustStop(Reading(m, globalEnable)) && Ipv4Held(m.st, m.conn)
    requires !msg.isExpired && Describes(m.ifc.ip.ipv6, msg)
    ensures Ipv6TornDown(Tick(m, globalEnable, o)) <==> TakesBack(msg, msg.data)
  {
    Ipv6RenewalTearsDownIff(m, globalEnable, o, msg);
    if Connects(msg, o) {
      DescribedAlike(m.ifc.ip.ipv6, Seen(m, globalEnable, o).ifc.ip.ipv6, msg);
    }
  }
}
