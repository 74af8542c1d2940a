// The interface table behind its recursive lock (source/WanManager/wanmgr_data.c).

module WanDatabase {
  import opened WanTypes

  /** DML_WAN_IFACE: the shared record, updated in place by both kinds of thread. */
  class WanInterface {
    var wan: WanInfo
    var phy: PhyStatus
    var ip: IpInfo
    var mapt: TunnelInfo
    var dslite: TunnelInfo

    function View(): Iface
      reads this
    {
      Iface(wan, phy, ip, mapt, dslite)
    }

    /** WanMgr_IfaceData_Init */
    constructor ()
      ensures View() == InitialIface
    {
      wan := WanInfo("", false, -1, Unconfigured, false, false, false, Disabled, LinkDown, false);
      phy := PhyDown;
      ip := IpInfo(false, false, false, false, EmptyIpv4, EmptyIpv6, None, None);
      mapt := TunnelInfo(false, false);
      dslite := TunnelInfo(false, false);
    }
  }

  /** The two sysevents that only the set-up and tear-down functions write. */
  class Sysevents {
    var ipv4ConnectionUp: bool
    var ipv6ConnectionUp: bool

    function View(): Conn
      reads this
    {
      Conn(ipv4ConnectionUp, ipv6ConnectionUp)
    }
  }

  /** The interface table and the configuration, each behind its own recursive mutex.
      A depth counts how often the thread that is running holds the mutex. `peak` and
      `crossed` record what ever happened: the deepest nesting of the interface lock, and
      whether it was ever requested by a holder of the configuration lock. */
  class Database {
    const ifaces: seq<WanInterface>
    var enable: bool
    var ifaceDepth: nat
    var configDepth: nat
    ghost var peak: nat
    ghost var crossed: bool

    ghost predicate Valid()
      reads this
    {
      && |ifaces| > 0
      && forall i, j :: 0 <= i < j < |ifaces| ==> ifaces[i] != ifaces[j]
    }

    /** No lock is held, and none was ever misused. */
    ghost predicate Unlocked()
      reads this
    {
      ifaceDepth == 0 && configDepth == 0 && peak <= 2 && !crossed
    }

    function Table(): (t: seq<Iface>)
      reads ifaces
      ensures |t| == |ifaces| && forall i :: 0 <= i < |t| ==> t[i] == ifaces[i].View()
    {
      seq(|ifaces|, i requires 0 <= i < |ifaces| reads ifaces => ifaces[i].View())
    }

    constructor (n: nat)
      requires n > 0
      ensures Valid() && Unlocked() && enable
      ensures fresh(ifaces) && Table() == seq(n, _ => InitialIface)
    {
      var built: seq<WanInterface> := [];
      while |built| < n
        invariant |built| <= n && fresh(built)
        invariant forall i, j :: 0 <= i < j < |built| ==> built[i] != built[j]
        invariant forall i :: 0 <= i < |built| ==> built[i].View() == InitialIface
      {
        var next := new WanInterface();
        built := built + [next];
      }
      ifaces := built;
      enable := true;
      ifaceDepth, configDepth, peak, crossed := 0, 0, 0, false;
    }

    /** WanMgr_GetConfigData_locked */
    method LockConfig()
      modifies this`configDepth
      ensures configDepth == old(configDepth) + 1
    {
      configDepth := configDepth + 1;
    }

    /** WanMgrDml_GetConfigData_release */
    method ReleaseConfig()
      requires configDepth > 0
      modifies this`configDepth
      ensures configDepth == old(configDepth) - 1
    {
      configDepth := configDepth - 1;
    }

    /** WanMgr_GetIfaceCtrl_locked */
    method LockIfaceCtrl()
      modifies this`ifaceDepth, this`peak, this`crossed
      ensures ifaceDepth == old(ifaceDepth) + 1
      ensures peak == if old(peak) < ifaceDepth then ifaceDepth else old(peak)
      ensures crossed == (old(crossed) || configDepth > 0)
    {
      ifaceDepth := ifaceDepth + 1;
      if peak < ifaceDepth { peak := ifaceDepth; }
      crossed := crossed || configDepth > 0;
    }

    /** WanMgrDml_GetIfaceCtrl_release, WanMgrDml_GetIfaceData_release */
    method ReleaseIface()
      requires ifaceDepth > 0
      modifies this`ifaceDepth
      ensures ifaceDepth == old(ifaceDepth) - 1
    {
      ifaceDepth := ifaceDepth - 1;
    }

    /** WanMgr_GetIfaceData_locked: the caller holds the lock exactly when it gets a record.
        A negative index is a huge unsigned one in the original. */
    method GetIfaceLocked(index: int) returns (r: WanInterface?)
      modifies this`ifaceDepth, this`peak, this`crossed
      ensures r != null <==> 0 <= index < |ifaces|
      ensures r != null ==> r == ifaces[index]
      ensures ifaceDepth == if r != null then old(ifaceDepth) + 1 else old(ifaceDepth)
      ensures peak == if old(peak) <= old(ifaceDepth) then old(ifaceDepth) + 1 else old(peak)
      ensures crossed == (old(crossed) || configDepth > 0)
    {
      LockIfaceCtrl();
      if 0 <= index < |ifaces| {
        return ifaces[index];
      }
      ReleaseIface();
      r := null;
    }

    /** WanMgr_GetIfaceDataByName_locked: the first record with that name. */
    method GetIfaceByNameLocked(name: string) returns (r: WanInterface?, at: nat)
      modifies this`ifaceDepth, this`peak, this`crossed
      ensures r == null <==> forall i :: 0 <= i < |ifaces| ==> ifaces[i].wan.name != name
      ensures r != null ==> at < |ifaces| && r == ifaces[at] && r.wan.name == name
      ensures r != null ==> forall i :: 0 <= i < at ==> ifaces[i].wan.name != name
      ensures ifaceDepth == if r != null then old(ifaceDepth) + 1 else old(ifaceDepth)
      ensures peak == if old(peak) <= old(ifaceDepth) then old(ifaceDepth) + 1 else old(peak)
      ensures crossed == (old(crossed) || configDepth > 0)
    {
      LockIfaceCtrl();
      at := 0;
      while at < |ifaces|
        invariant at <= |ifaces|
        invariant forall i :: 0 <= i < at ==> ifaces[i].wan.name != name
      {
        if ifaces[at].wan.name == name {
          return ifaces[at], at;
        }
        at := at + 1;
      }
      ReleaseIface();
      r := null;
    }
  }
}
