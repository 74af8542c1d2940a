// The interface state machine thread as it runs: transitions assign fields of the shared
// interface record and of the sysevents (source/WanManager/wanmgr_interface_sm.c).

module InterfaceMachine {
  import opened WanTypes
  import opened WanDatabase
  import opened InterfaceSpec
  import InterfaceLemmas

  datatype IfaceEvent = ConnectionUp | ConnectionLost | ConnectionIpv6Up | ConnectionIpv6Lost

  class Controller {
    const index: nat
    const db: Database
    const sysevents: Sysevents
    var wanEnable: bool
    var st: WanState
    var running: bool

    /** WanMgr_IfaceSM_Init */
    constructor (index: nat, db: Database, sysevents: Sysevents)
      ensures this.index == index && this.db == db && this.sysevents == sysevents
      ensures !wanEnable && !running && st == Exit
    {
      this.index, this.db, this.sysevents := index, db, sysevents;
      wanEnable, running, st := false, false, Exit;
    }

    /** The machine that works on record `i`, seen in state `s`. */
    function At(i: WanInterface, s: WanState): Machine
      reads this, i, sysevents
    {
      Machine(running, s, wanEnable, i.View(), sysevents.View())
    }

    ghost predicate Valid()
      reads this, db
    {
      db.Valid() && index < |db.ifaces|
    }

    // ---- Actions ----

    /** WanManager_UpdateInterfaceStatus */
    method UpdateInterfaceStatus(i: WanInterface, event: IfaceEvent)
      modifies i
      ensures i.View() ==
              match event
              case ConnectionUp => old(i.View()).(ip := old(i.ip).(ipv4Up := true))
              case ConnectionLost => old(i.View()).(ip := ConnectionDown(old(i.ip)))
              case ConnectionIpv6Up => old(i.View()).(ip := old(i.ip).(ipv6Up := true))
              case ConnectionIpv6Lost => ConnectionIpv6Down(old(i.View()))
    {
      match event {
        case ConnectionUp =>
          i.ip := i.ip.(ipv4Up := true);
        case ConnectionLost =>
          i.ip := i.ip.(ipv4Up := false);
          i.ip := i.ip.(ipv4Changed := false);
          i.ip := i.ip.(ipv4 := i.ip.ipv4.(ip := ""));
        case ConnectionIpv6Up =>
          i.ip := i.ip.(ipv6Up := true);
        case ConnectionIpv6Lost =>
          i.ip := i.ip.(ipv6Up := false);
          i.ip := i.ip.(ipv6Changed := false);
          i.mapt := i.mapt.(up := false);
          i.mapt := i.mapt.(changed := false);
          var data := i.ip.ipv6;
          data := data.(address := "");
          data := data.(pdIfAddress := "");
          data := data.(sitePrefix := "");
          data := data.(nameserver := "");
          data := data.(nameserver1 := "");
          i.ip := i.ip.(ipv6 := data);
      }
    }

    /** wan_setUpIPv4: the sysevent is set only if a broadcast address can be computed. */
    method SetUpIpv4(o: Outcome)
      modifies sysevents
      ensures sysevents.View() == old(sysevents.View()).(v4 := old(sysevents.ipv4ConnectionUp) || o.broadcastOk)
    {
      if !o.broadcastOk { return; }
      sysevents.ipv4ConnectionUp := true;
    }

    /** wan_tearDownIPv4 */
    method TearDownIpv4()
      modifies sysevents
      ensures sysevents.View() == old(sysevents.View()).(v4 := false)
    {
      sysevents.ipv4ConnectionUp := false;
    }

    /** wan_setUpIPv6 */
    method SetUpIpv6()
      modifies sysevents
      ensures sysevents.View() == old(sysevents.View()).(v6 := true)
    {
      sysevents.ipv6ConnectionUp := true;
    }

    /** wan_tearDownIPv6 */
    method TearDownIpv6()
      modifies sysevents
      ensures sysevents.View() == old(sysevents.View()).(v6 := false)
    {
      sysevents.ipv6ConnectionUp := false;
    }

    /** WanManager_ClearDHCPData */
    method ClearDhcpData(i: WanInterface)
      modifies i
      ensures i.View() == old(i.View()).(ip := ClearedIp)
    {
      i.ip := i.ip.(ipv4Up := false, ipv4Changed := false, ipv4 := EmptyIpv4);
      if i.ip.box4 != None { i.ip := i.ip.(box4 := None); }
      i.ip := i.ip.(ipv6Up := false, ipv6Changed := false, ipv6 := EmptyIpv6);
      if i.ip.box6 != None { i.ip := i.ip.(box6 := None); }
    }

    // ---- Messages ----

    /** wanmgr_handle_dchpv4_event_data */
    method HandleIpv4Event(i: WanInterface)
      modifies i
      ensures i.View() == old(i.View()).(ip := HandleIpv4(old(i.ip)))
      ensures i.ip.box4 == None
    {
      if i.ip.box4 == None { return; }
      var msg := i.ip.box4.value;
      var changed := Ipv4Differs(i.ip.ipv4, msg.data);
      if msg.addressAssigned {
        if changed { i.ip := i.ip.(ipv4Changed := true); }
        i.ip := i.ip.(ipv4 := msg.data);
        UpdateInterfaceStatus(i, ConnectionUp);
      } else if msg.isExpired {
        i.ip := i.ip.(ipv4 := msg.data);
        UpdateInterfaceStatus(i, ConnectionLost);
      }
      i.ip := i.ip.(box4 := None);
    }

    /** The prefix part of a DHCPv6 message: an added prefix yields the bridge address, a
        withdrawn one that is in use takes IPv6 down. */
    method HandlePrefix(i: WanInterface, msg: Ipv6Msg) returns (connected: bool, data: Ipv6Data)
      modifies i
      ensures connected == PrefixAdded(msg) && data == LeaseOf(msg)
      ensures i.View() == if PrefixWithdrawn(msg, old(i.ip.ipv6)) then ConnectionIpv6Down(old(i.View())) else old(i.View())
    {
      connected, data := false, msg.data;
      if msg.prefixAssigned && msg.data.sitePrefix != "" {
        if msg.prefixAdd && msg.data.prefixPltime != 0 && msg.data.prefixVltime != 0 {
          connected := true;
          data := data.(pdIfAddress := BridgeAddress(msg.data));
        } else if i.ip.ipv6.sitePrefix == msg.data.sitePrefix {
          UpdateInterfaceStatus(i, ConnectionIpv6Lost);
        }
      }
    }

    method StoreLease(i: WanInterface, data: Ipv6Data)
      modifies i
      ensures i.View() == old(i.View()).(ip := StoreIpv6(old(i.ip), data))
    {
      if Ipv6Differs(data, i.ip.ipv6) { i.ip := i.ip.(ipv6Changed := true); }
      i.ip := i.ip.(ipv6 := data);
      i.ip := i.ip.(ipv6Up := true);
    }

    /** wanmgr_handle_dchpv6_event_data */
    method HandleIpv6Event(i: WanInterface, o: Outcome)
      modifies i
      ensures i.View() == HandleIpv6(old(i.View()), o)
      ensures i.ip.box6 == None
    {
      if i.ip.box6 == None { return; }
      var msg := i.ip.box6.value;
      i.ip := i.ip.(box6 := None);
      if msg.isExpired {
        i.ip := i.ip.(ipv6 := msg.data);
        UpdateInterfaceStatus(i, ConnectionIpv6Lost);
        return;
      }
      var connected, data := HandlePrefix(i, msg);
      if msg.addrAssigned {
        if msg.addrAdd { connected := true; }
      } else if o.globalAddr {
        connected := true;
      }
      if connected { StoreLease(i, data); }
    }

    // ---- Transitions ----

    /** wan_transition_start */
    method TransitionStart(i: WanInterface) returns (next: WanState)
      modifies i
      ensures At(i, next) == Start(old(At(i, st)))
    {
      i.ip := i.ip.(ipv4Up := false, ipv6Up := false);
      i.mapt := i.mapt.(up := false);
      i.dslite := i.dslite.(up := false);
      i.wan := i.wan.(status := Initialising);
      i.wan := i.wan.(linkStatus := LinkConfiguring);
      next := ConfiguringWan;
    }

    /** wan_transition_wan_up */
    method TransitionWanUp(i: WanInterface) returns (next: WanState)
      modifies i
      ensures i.View() == old(i.View()).(wan := old(i.wan).(status := Validating)) && next == ValidatingWan
    {
      i.wan := i.wan.(status := Validating);
      next := ValidatingWan;
    }

    /** wan_transition_wan_validated */
    method TransitionValidated(i: WanInterface) returns (next: WanState)
      modifies i
      ensures At(i, next) == Validated(old(At(i, st)))
    {
      i.wan := i.wan.(status := Up);
      ClearDhcpData(i);
      next := ObtainingIp;
    }

    /** wan_transition_refreshing_wan */
    method TransitionRefreshing(i: WanInterface) returns (next: WanState)
      modifies i
      ensures At(i, next) == Refreshing(old(At(i, st)))
    {
      i.wan := i.wan.(linkStatus := LinkConfiguring);
      i.wan := i.wan.(refresh := false);
      next := RefreshingWan;
    }

    /** wan_transition_wan_refreshed */
    method TransitionRefreshed(i: WanInterface) returns (next: WanState)
      modifies i
      ensures At(i, next) == Refreshed(old(At(i, st)))
    {
      ClearDhcpData(i);
      next := ObtainingIp;
    }

    /** wan_transition_ipv4_up */
    method TransitionIpv4Up(i: WanInterface, o: Outcome) returns (next: WanState)
      modifies i, sysevents
      ensures At(i, next) == Ipv4UpT(old(At(i, st)), o)
    {
      if i.wan.activeLink { SetUpIpv4(o); }
      i.ip := i.ip.(ipv4Changed := false);
      i.ip := i.ip.(ipv4Up := true);
      if i.ip.ipv6Up && sysevents.ipv6ConnectionUp {
        return DualStackActive;
      }
      next := Ipv4Leased;
    }

    /** wan_transition_ipv4_down */
    method TransitionIpv4Down(i: WanInterface) returns (next: WanState)
      modifies i, sysevents
      ensures At(i, next) == Ipv4DownT(old(At(i, st)))
    {
      TearDownIpv4();
      UpdateInterfaceStatus(i, ConnectionLost);
      if i.ip.ipv6Up && sysevents.ipv6ConnectionUp {
        return Ipv6Leased;
      }
      next := ObtainingIp;
    }

    /** wan_transition_ipv6_up */
    method TransitionIpv6Up(i: WanInterface) returns (next: WanState)
      modifies i, sysevents
      ensures At(i, next) == Ipv6UpT(old(At(i, st)))
    {
      if i.wan.activeLink { SetUpIpv6(); }
      i.ip := i.ip.(ipv6Changed := false);
      i.ip := i.ip.(ipv6Up := true);
      if i.ip.ipv4Up && sysevents.ipv4ConnectionUp {
        return DualStackActive;
      }
      next := Ipv6Leased;
    }

    /** wan_transition_ipv6_down */
    method TransitionIpv6Down(i: WanInterface) returns (next: WanState)
      modifies i, sysevents
      ensures At(i, next) == Ipv6DownT(old(At(i, st)))
    {
      TearDownIpv6();
      UpdateInterfaceStatus(i, ConnectionIpv6Lost);
      if i.ip.ipv4Up && sysevents.ipv4ConnectionUp {
        return Ipv4Leased;
      }
      next := ObtainingIp;
    }

    /** wan_transition_dual_stack_down: the results of the two teardowns are dropped. */
    method TransitionDualStackDown(i: WanInterface) returns (next: WanState)
      modifies i, sysevents
      ensures At(i, next) == DualStackDownT(old(At(i, st)))
    {
      var _ := TransitionIpv4Down(i);
      var _ := TransitionIpv6Down(i);
      next := ObtainingIp;
    }

    /** wan_transition_exit */
    method TransitionExit(i: WanInterface) returns (next: WanState)
      modifies i
      ensures At(i, next) == ExitT(old(At(i, st)))
    {
      i.wan := i.wan.(status := Disabled);
      i.wan := i.wan.(refresh := false);
      i.wan := i.wan.(activeLink := false);
      next := Exit;
    }

    // ---- States ----

    predicate Lost(i: WanInterface)
      reads this, i
    {
      !wanEnable || !i.wan.activeLink || i.phy == PhyDown || i.wan.linkStatus == LinkDown
    }

    /** wan_state_configuring_wan */
    method RunConfiguring(i: WanInterface) returns (next: WanState)
      modifies i
      ensures At(i, next) == StateConfiguring(old(At(i, st)))
    {
      if Lost(i) { return DeconfiguringWan; }
      if i.wan.linkStatus == LinkUp {
        next := TransitionWanUp(i);
        return;
      }
      next := ConfiguringWan;
    }

    /** wan_state_validating_wan */
    method RunValidating(i: WanInterface) returns (next: WanState)
      modifies i
      ensures At(i, next) == StateValidating(old(At(i, st)))
    {
      if Lost(i) { return DeconfiguringWan; }
      if i.wan.linkStatus == LinkConfiguring { return ConfiguringWan; }
      next := TransitionValidated(i);
    }

    /** wan_state_refreshing_wan */
    method RunRefreshing(i: WanInterface) returns (next: WanState)
      modifies i
      ensures At(i, next) == StateRefreshing(old(At(i, st)))
    {
      if Lost(i) {
        return DeconfiguringWan;
      } else if i.wan.linkStatus == LinkUp && i.wan.refresh {
        next := TransitionRefreshing(i);
        return;
      } else if i.wan.linkStatus == LinkUp && !i.wan.refresh {
        next := TransitionRefreshed(i);
        return;
      }
      next := RefreshingWan;
    }

    /** wan_state_obtaining_ip_addresses */
    method RunObtaining(i: WanInterface, o: Outcome) returns (next: WanState)
      requires st == ObtainingIp
      modifies i, sysevents
      ensures At(i, next) == StateObtaining(old(At(i, st)), o)
    {
      if Lost(i) { return DeconfiguringWan; }
      if i.wan.linkStatus == LinkConfiguring || i.wan.refresh {
        next := RunRefreshing(i);
        return;
      }
      if i.ip.ipv4Up {
        next := TransitionIpv4Up(i, o);
        return;
      } else if i.ip.ipv6Up {
        if i.ip.ipv6Changed {
          i.ip := i.ip.(ipv6Changed := false);
          return ObtainingIp;
        }
        if o.lanReady {
          next := TransitionIpv6Up(i);
          return;
        }
      }
      next := ObtainingIp;
    }

    /** wan_state_ipv4_leased */
    method RunIpv4Leased(i: WanInterface, o: Outcome) returns (next: WanState)
      requires st == Ipv4Leased
      modifies i, sysevents
      ensures At(i, next) == StateIpv4Leased(old(At(i, st)), o)
    {
      if Lost(i) || !i.ip.ipv4Up || i.ip.ipv4Changed {
        next := TransitionIpv4Down(i);
        return;
      } else if i.ip.ipv6Up {
        if i.ip.ipv6Changed {
          i.ip := i.ip.(ipv6Changed := false);
          return Ipv4Leased;
        }
        if o.lanReady {
          next := TransitionIpv6Up(i);
          return;
        }
      }
      next := Ipv4Leased;
    }

    /** wan_state_ipv6_leased; the tunnel transition is wan_transition_ipv4_over_ipv6_up,
        which only names IPV4_LEASED as the next state. */
    method RunIpv6Leased(i: WanInterface, o: Outcome) returns (next: WanState)
      requires st == Ipv6Leased
      modifies i, sysevents
      ensures At(i, next) == StateIpv6Leased(old(At(i, st)), o)
    {
      if Lost(i) || !i.ip.ipv6Up || i.ip.ipv6Changed {
        next := TransitionIpv6Down(i);
        return;
      } else if i.ip.ipv4Up {
        next := TransitionIpv4Up(i, o);
        return;
      } else if i.wan.enableDslite && i.wan.activeLink && i.dslite.up {
        return Ipv4Leased;
      } else if i.wan.enableMapt && i.wan.activeLink && i.mapt.up {
        return Ipv4Leased;
      }
      next := Ipv6Leased;
    }

    /** wan_state_dual_stack_active */
    method RunDualStack(i: WanInterface) returns (next: WanState)
      requires st == DualStackActive
      modifies i, sysevents
      ensures At(i, next) == StateDualStack(old(At(i, st)))
    {
      if Lost(i) {
        next := TransitionDualStackDown(i);
        return;
      } else if !i.ip.ipv4Up {
        next := TransitionIpv4Down(i);
        return;
      } else if !i.ip.ipv6Up {
        next := TransitionIpv6Down(i);
        return;
      } else if i.wan.enableDslite && i.wan.activeLink && i.dslite.up {
        return Ipv4Leased;
      } else if i.wan.enableMapt && i.wan.activeLink && i.mapt.up {
        return Ipv4Leased;
      }
      next := DualStackActive;
    }

    /** wan_state_ipv4_over_ipv6_active */
    method RunIpv4OverIpv6(i: WanInterface) returns (next: WanState)
      requires st == Ipv4OverIpv6Active
      ensures At(i, next) == StateIpv4OverIpv6(At(i, st))
    {
      if Lost(i) || !i.ip.ipv6Up || i.ip.ipv6Changed {
        return Ipv4Leased;
      } else if !i.wan.enableDslite || !i.dslite.up || i.dslite.changed {
        return Ipv4Leased;
      } else if !i.wan.enableMapt || !i.mapt.up || i.mapt.changed {
        return Ipv4Leased;
      }
      next := Ipv4OverIpv6Active;
    }

    /** wan_state_deconfiguring_wan */
    method RunDeconfiguring(i: WanInterface) returns (next: WanState)
      requires st == DeconfiguringWan
      modifies i
      ensures At(i, next) == StateDeconfiguring(old(At(i, st)))
    {
      if i.wan.linkStatus == LinkDown {
        next := TransitionExit(i);
        return;
      }
      next := DeconfiguringWan;
    }

    /** The switch of the thread loop, with wan_state_exit in its default branch. */
    method RunCurrentState(i: WanInterface, o: Outcome)
      modifies this`st, this`running, i, sysevents
      ensures At(i, st) == RunState(old(At(i, st)), o)
    {
      match st {
        case ConfiguringWan => st := RunConfiguring(i);
        case ValidatingWan => st := RunValidating(i);
        case ObtainingIp => st := RunObtaining(i, o);
        case Ipv4Leased => st := RunIpv4Leased(i, o);
        case Ipv6Leased => st := RunIpv6Leased(i, o);
        case DualStackActive => st := RunDualStack(i);
        case Ipv4OverIpv6Active => st := RunIpv4OverIpv6(i);
        case RefreshingWan => st := RunRefreshing(i);
        case DeconfiguringWan => st := RunDeconfiguring(i);
        case Exit =>
          i.wan := i.wan.(name := "");
          ClearDhcpData(i);
          running := false;
      }
    }

    /** The thread before its loop: wan_transition_start under the lock. */
    method Begin()
      requires Valid() && db.Unlocked()
      modifies this`st, this`running, db`ifaceDepth, db`peak, db`crossed, db.ifaces[index]
      ensures db.Unlocked() && running
      ensures At(db.ifaces[index], st) == Start(old(At(db.ifaces[index], st)).(running := true))
    {
      running := true;
      var i := db.GetIfaceLocked(index);
      st := TransitionStart(i);
      db.ReleaseIface();
    }

    /** One iteration of WanMgr_InterfaceSMThread: the tick is the specified one, and it
        leaves both locks as it found them. */
    method RunTick(o: Outcome)
      requires Valid() && db.Unlocked()
      modifies this, db`ifaceDepth, db`configDepth, db`peak, db`crossed, db.ifaces[index], sysevents
      ensures db.Unlocked()
      ensures At(db.ifaces[index], st) == Tick(old(At(db.ifaces[index], st)), db.enable, o)
      ensures db.ifaces[index].ip.box4 == None && db.ifaces[index].ip.box6 == None
    {
      db.LockConfig();
      wanEnable := db.enable;
      db.ReleaseConfig();
      var i := db.GetIfaceLocked(index);
      if i.ip.box4 != None { HandleIpv4Event(i); }
      if i.ip.box6 != None { HandleIpv6Event(i, o); }
      RunCurrentState(i, o);
      db.ReleaseIface();
      InterfaceLemmas.TickEmptiesBoxes(old(At(db.ifaces[index], st)), db.enable, o);
    }
  }
}
