// The primary-priority policy thread as it runs: scans under the recursive lock,
// transitions that write the controller and the active flags
// (source/WanManager/wanmgr_policy_pp_impl.c).

module PolicyController {
  import opened WanTypes
  import opened WanDatabase
  import opened PolicySpec

  class Controller {
    const db: Database
    const standby: bool          // build option WAN_ENABLE_STANDBY
    var st: PolicyState
    var wanEnable: bool
    var active: int
    var secondary: int
    var held: WanInterface?      // pWanActiveIfaceData: the active record, locked during a tick
    var starts: seq<nat>         // state machines started so far, in order

    /** WanMgr_Controller_PolicyCtrlInit and Transition_Start */
    constructor (db: Database, standby: bool)
      ensures this.db == db && this.standby == standby
      ensures st == InterfaceDown && !wanEnable && active == -1 && secondary == -1 && starts == []
    {
      this.db, this.standby := db, standby;
      st, wanEnable, active, secondary, held, starts := InterfaceDown, false, -1, -1, null, [];
    }

    /** The controller and the table, seen in policy state `s`. */
    function At(s: PolicyState): World
      reads this, db.ifaces
    {
      World(Policy(s, wanEnable, active, secondary), db.Table(), starts)
    }

    function View(): World
      reads this, db.ifaces
    {
      At(st)
    }

    /** `k` is the index under which the tick fetched the active record. */
    ghost predicate Holds(k: int)
      reads this, db
    {
      && db.Valid()
      && (held == null <==> !(0 <= k < |db.ifaces|))
      && (held != null ==> held == db.ifaces[k])
    }

    /** Lock depth during a tick: the active record is locked if there is one. */
    ghost predicate LockedByTick()
      reads this, db
    {
      db.configDepth == 0 && db.ifaceDepth == (if held == null then 0 else 1) && db.peak <= 2 && !db.crossed
    }

    // ---- Actions ----

    /** The scan of WanMgr_Policy_FM_SelectWANActive keeps the best of both kinds. */
    method ScanTable(total: nat) returns (primary: int, other: int)
      requires db.Valid() && LockedByTick() && total == |db.ifaces|
      modifies db`ifaceDepth, db`peak, db`crossed
      ensures LockedByTick()
      ensures primary == Best(db.Table(), true) && other == Best(db.Table(), false)
    {
      primary, other := -1, -1;
      var primaryPriority, otherPriority := PRIORITY_MAX, PRIORITY_MAX;
      ghost var t := db.Table();
      var i := 0;
      while i < total
        invariant 0 <= i <= total && LockedByTick()
        invariant primaryPriority <= PRIORITY_MAX && otherPriority <= PRIORITY_MAX
        invariant primary == BestOf(t, i, true) && other == BestOf(t, i, false)
        invariant primaryPriority == if primary == -1 then PRIORITY_MAX else t[primary].wan.priority
        invariant otherPriority == if other == -1 then PRIORITY_MAX else t[other].wan.priority
      {
        var r := db.GetIfaceLocked(i);
        assert t[i] == r.View();
        if r.wan.enable && (r.phy == PhyUp || r.phy == PhyInitializing) {
          if r.wan.kind == Primary {
            if r.wan.priority < primaryPriority {
              if r.wan.priority >= 0 {
                primary := i;
                primaryPriority := r.wan.priority;
              }
            }
          } else {
            if r.wan.priority < otherPriority {
              if r.wan.priority >= 0 {
                other := i;
                otherPriority := r.wan.priority;
              }
            }
          }
        }
        db.ReleaseIface();
        i := i + 1;
      }
    }

    /** WanMgr_Policy_FM_SelectWANActive */
    method SelectWanActive() returns (primary: int, other: int)
      requires db.Valid() && LockedByTick()
      modifies db`ifaceDepth, db`peak, db`crossed
      ensures LockedByTick()
      ensures View() == old(View())
      ensures primary == Select(View(), true) && other == Select(View(), false)
    {
      primary, other := -1, -1;
      db.LockIfaceCtrl();
      var total := |db.ifaces|;
      db.ReleaseIface();
      if total > 0 {
        if wanEnable {
          primary, other := ScanTable(total);
        }
      }
    }

    /** WanMgr_CheckAllIfacesDown */
    method CheckAllIfacesDown() returns (allDown: bool)
      requires db.Valid() && LockedByTick()
      modifies db`ifaceDepth, db`peak, db`crossed
      ensures LockedByTick() && View() == old(View())
      ensures allDown == AllDown(View().table)
    {
      allDown := true;
      db.LockIfaceCtrl();
      var total := |db.ifaces|;
      db.ReleaseIface();
      var i := 0;
      ghost var t := db.Table();
      while i < total
        invariant 0 <= i <= total && LockedByTick()
        invariant allDown <==> forall j :: 0 <= j < i ==> t[j].wan.status == Disabled
      {
        var r := db.GetIfaceLocked(i);
        assert t[i] == r.View();
        if r.wan.status != Disabled { allDown := false; }
        db.ReleaseIface();
        i := i + 1;
      }
    }

    /** An assignment to Wan.ActiveLink of one record. */
    method AssignLink(r: WanInterface, on: bool, ghost k: int)
      requires db.Valid() && 0 <= k < |db.ifaces| && r == db.ifaces[k]
      modifies r`wan
      ensures db.Table() == SetLink(old(db.Table()), k, on)
    {
      r.wan := r.wan.(activeLink := on);
    }

    /** The active flag of the record fetched at the start of the tick is cleared. */
    method DropHeldLink(ghost k: int)
      requires Holds(k)
      modifies db.ifaces
      ensures db.Table() == SetLink(old(db.Table()), k, false)
    {
      if held != null { AssignLink(held, false, k); }
    }

    /** The record of interface `k` becomes active and its state machine is started. */
    method ActivateIface(k: int)
      requires db.Valid() && LockedByTick() && 0 <= k < |db.ifaces|
      modifies this`starts, db`ifaceDepth, db`peak, db`crossed, db.ifaces
      ensures LockedByTick() && View() == Activate(old(View()), k)
    {
      var r := db.GetIfaceLocked(k);
      AssignLink(r, true, k);
      db.ReleaseIface();
      starts := starts + [k];
    }

    // ---- Transitions ----

    /** Transition_PrimaryInterfaceSelected */
    method TransitionPrimarySelected(ghost k: int) returns (next: PolicyState)
      requires Holds(k) && LockedByTick() && 0 <= active < |db.ifaces|
      modifies this`starts, db`ifaceDepth, db`peak, db`crossed, db.ifaces
      ensures LockedByTick()
      ensures At(next) == PrimarySelected(old(View()), k, standby)
    {
      DropHeldLink(k);
      ActivateIface(active);
      if standby {
        if secondary < 0 { return PrimaryWanActive; }
        return PrimaryWanActiveSecondaryWanUp;
      }
      next := PrimaryWanActive;
    }

    /** Transition_PrimaryInterfaceDeSelected */
    method TransitionPrimaryDeselected(ghost k: int) returns (next: PolicyState)
      requires Holds(k) && held != null
      modifies this`active, db.ifaces
      ensures At(next) == PrimaryDeselected(old(View()), k)
    {
      DropHeldLink(k);
      active := -1;
      next := InterfaceDown;
    }

    /** Transition_PrimaryInterfaceChanged */
    method TransitionPrimaryChanged(ghost k: int) returns (next: PolicyState)
      requires Holds(k) && LockedByTick() && held != null
      modifies this`active, this`starts, db`ifaceDepth, db`peak, db`crossed, db.ifaces
      ensures LockedByTick()
      ensures At(next) == PrimaryChanged(old(View()), k)
    {
      DropHeldLink(k);
      active := -1;
      var primary, other := SelectWanActive();
      ActivateChoice(primary);
      next := PrimaryWanActiveSecondaryWanUp;
    }

    /** The new primary, if there is one. */
    method ActivateChoice(primary: int)
      requires db.Valid() && LockedByTick() && active == -1 && (primary == -1 || 0 <= primary < |db.ifaces|)
      modifies this`active, this`starts, db`ifaceDepth, db`peak, db`crossed, db.ifaces
      ensures LockedByTick()
      ensures active == primary && View() == Activate(old(View()), primary).(policy := old(View()).policy.(active := primary))
    {
      if primary != -1 {
        active := primary;
        ActivateIface(active);
      }
    }

    /** Transition_SecondaryInterfaceSelected */
    method TransitionSecondarySelected(ghost k: int) returns (next: PolicyState)
      requires Holds(k) && LockedByTick()
      modifies this`active, this`starts, db`ifaceDepth, db`peak, db`crossed, db.ifaces
      ensures LockedByTick()
      ensures At(next) == SecondarySelected(old(View()), k)
    {
      DropHeldLink(k);
      active := secondary;
      if !(0 <= active < |db.ifaces|) {
        var r := db.GetIfaceLocked(active);
        return InterfaceDown;
      }
      ActivateIface(active);
      next := SecondaryWanActive;
    }

    /** Transition_SecondaryInterfaceDeSelected */
    method TransitionSecondaryDeselected(ghost k: int) returns (next: PolicyState)
      requires Holds(k)
      modifies this`active, this`secondary, db.ifaces
      ensures At(next) == SecondaryDeselected(old(View()), k)
    {
      DropHeldLink(k);
      active := -1;
      secondary := -1;
      next := InterfaceDown;
    }

    /** Transition_SecondaryInterfaceUp */
    method TransitionSecondaryUp() returns (next: PolicyState)
      requires db.Valid() && LockedByTick()
      modifies this`secondary, this`starts, db`ifaceDepth, db`peak, db`crossed
      ensures LockedByTick()
      ensures At(next) == SecondaryUp(old(View()))
    {
      var secondaryUp := false;
      var r := db.GetIfaceLocked(secondary);
      if r != null {
        assert db.Table()[secondary] == r.View();
        if r.wan.enable && r.wan.status == Disabled && r.phy == PhyUp &&
           r.wan.linkStatus == LinkDown && r.wan.kind == Secondary {
          secondaryUp := true;
        }
        db.ReleaseIface();
      }
      if !secondaryUp {
        secondary := -1;
        return PrimaryWanActive;
      }
      starts := starts + [secondary];
      next := PrimaryWanActiveSecondaryWanUp;
    }

    // ---- States ----

    /** The active interface no longer fits its role. */
    method CheckUnfit(role: WanType, ghost k: int) returns (unfit: bool)
      requires Holds(k) && held != null
      ensures unfit == Unfit(View(), k, role)
    {
      assert db.Table()[k] == held.View();
      unfit := !wanEnable || held.phy == PhyDown || held.wan.kind != role || !held.wan.enable;
    }

    /** State_WanDown */
    method StateWanDown(ghost k: int) returns (next: PolicyState)
      requires Holds(k) && LockedByTick() && st == InterfaceDown
      modifies this`active, this`secondary, this`starts, db`ifaceDepth, db`peak, db`crossed, db.ifaces
      ensures LockedByTick()
      ensures At(next) == WanDown(old(View()), k, standby)
    {
      if !standby {
        var allDown := CheckAllIfacesDown();
        if !allDown { return InterfaceDown; }
      }
      next := SelectFirst(k);
    }

    /** The rest of State_WanDown, once nothing is in the way. */
    method SelectFirst(ghost k: int) returns (next: PolicyState)
      requires Holds(k) && LockedByTick() && st == InterfaceDown
      modifies this`active, this`secondary, this`starts, db`ifaceDepth, db`peak, db`crossed, db.ifaces
      ensures LockedByTick()
      ensures At(next) == WanChosen(old(View()), k, standby)
    {
      var primary, other := SelectWanActive();
      if primary != -1 {
        active := primary;
        next := TransitionPrimarySelected(k);
        return;
      } else if other != -1 {
        active := other;
        secondary := other;
        next := TransitionSecondarySelected(k);
        return;
      }
      next := InterfaceDown;
    }

    /** State_PrimaryWanActive */
    method StatePrimaryActive(ghost k: int) returns (next: PolicyState)
      requires Holds(k) && LockedByTick() && st == PrimaryWanActive
      modifies this`active, this`secondary, this`starts, db`ifaceDepth, db`peak, db`crossed, db.ifaces
      ensures LockedByTick()
      ensures At(next) == PrimaryActive(old(View()), k, standby)
    {
      if held == null { return InterfaceDown; }
      var unfit := CheckUnfit(Primary, k);
      if unfit {
        next := TransitionPrimaryDeselected(k);
        return;
      }
      var primary, other := SelectWanActive();
      if primary != active {
        next := TransitionPrimaryDeselected(k);
        return;
      }
      if standby {
        if other != secondary {
          secondary := other;
          next := TransitionSecondaryUp();
          return;
        }
      }
      next := PrimaryWanActive;
    }

    /** State_SecondaryWanActive */
    method StateSecondaryActive(ghost k: int) returns (next: PolicyState)
      requires Holds(k) && LockedByTick() && st == SecondaryWanActive
      modifies this`active, this`secondary, this`starts, db`ifaceDepth, db`peak, db`crossed, db.ifaces
      ensures LockedByTick()
      ensures At(next) == SecondaryActive(old(View()), k, standby)
    {
      if held == null { return InterfaceDown; }
      var unfit := CheckUnfit(Secondary, k);
      if unfit {
        next := TransitionSecondaryDeselected(k);
        return;
      }
      var primary, other := SelectWanActive();
      if other != active {
        next := TransitionSecondaryDeselected(k);
        return;
      }
      if primary != -1 {
        if standby {
          active := primary;
          next := TransitionPrimarySelected(k);
          return;
        }
        next := TransitionSecondaryDeselected(k);
        return;
      }
      next := SecondaryWanActive;
    }

    /** State_PrimaryWanActiveSecondaryWanUp */
    method StateBothActive(ghost k: int) returns (next: PolicyState)
      requires Holds(k) && LockedByTick() && st == PrimaryWanActiveSecondaryWanUp
      modifies this`active, this`secondary, this`starts, db`ifaceDepth, db`peak, db`crossed, db.ifaces
      ensures LockedByTick()
      ensures At(next) == BothActive(old(View()), k)
    {
      if held == null { return InterfaceDown; }
      var unfit := CheckUnfit(Primary, k);
      if unfit {
        next := TransitionSecondarySelected(k);
        return;
      }
      var primary, other := SelectWanActive();
      if primary != active {
        next := TransitionPrimaryChanged(k);
        return;
      }
      if other == -1 {
        secondary := -1;
        return PrimaryWanActive;
      }
      if other != secondary {
        secondary := other;
        next := TransitionSecondaryUp();
        return;
      }
      next := PrimaryWanActiveSecondaryWanUp;
    }

    /** The switch of the policy loop. */
    method RunCurrentState(ghost k: int)
      requires Holds(k) && LockedByTick()
      modifies this`st, this`active, this`secondary, this`starts, db`ifaceDepth, db`peak, db`crossed, db.ifaces
      ensures LockedByTick() && View() == RunState(old(View()), k, standby)
    {
      match st {
        case InterfaceDown => st := StateWanDown(k);
        case PrimaryWanActive => st := StatePrimaryActive(k);
        case SecondaryWanActive => st := StateSecondaryActive(k);
        case PrimaryWanActiveSecondaryWanUp => st := StateBothActive(k);
      }
    }

    /** One iteration of WanMgr_Policy_PrimaryPriorityPolicy: the tick is the specified one,
        and it leaves both locks as it found them, never nested deeper than two, the
        interface lock never requested under the configuration lock. */
    method RunTick()
      requires db.Valid() && db.Unlocked()
      modifies this, db`ifaceDepth, db`configDepth, db`peak, db`crossed, db.ifaces
      ensures db.Unlocked()
      ensures View() == Tick(old(View()), db.enable, standby)
    {
      db.LockConfig();
      wanEnable := db.enable;
      db.ReleaseConfig();
      ghost var k := active;
      held := db.GetIfaceLocked(active);
      RunCurrentState(k);
      if held != null { db.ReleaseIface(); }
    }
  }
}
