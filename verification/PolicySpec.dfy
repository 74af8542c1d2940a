// What one tick of the primary-priority policy does to the controller and the interface
// table (source/WanManager/wanmgr_policy_pp_impl.c), as functions on values, and what
// every tick keeps.

module PolicySpec {
  import opened WanTypes

  const PRIORITY_MAX := 255

  datatype PolicyState = InterfaceDown | PrimaryWanActive | SecondaryWanActive | PrimaryWanActiveSecondaryWanUp

  /** WanMgr_Policy_Controller_t; an index of -1 names no interface. */
  datatype Policy = Policy(st: PolicyState, enable: bool, active: int, secondary: int)

  /** `starts` lists the interfaces whose state machine was started. */
  datatype World = World(policy: Policy, table: seq<Iface>, starts: seq<nat>)

  // ---- Selection ----

  predicate Candidate(ifc: Iface, primary: bool) {
    && ifc.wan.enable && (ifc.phy == PhyUp || ifc.phy == PhyInitializing)
    && 0 <= ifc.wan.priority < 255
    && (ifc.wan.kind == Primary <==> primary)
  }

  predicate NoCandidate(t: seq<Iface>, primary: bool) {
    forall j :: 0 <= j < |t| ==> !Candidate(t[j], primary)
  }

  /** `k` is the first candidate of least priority. */
  predicate FirstLeast(t: seq<Iface>, primary: bool, k: int) {
    && 0 <= k < |t| && Candidate(t[k], primary)
    && forall j :: 0 <= j < |t| && Candidate(t[j], primary) ==>
         t[k].wan.priority <= t[j].wan.priority && (j < k ==> t[k].wan.priority < t[j].wan.priority)
  }

  predicate IsChoice(t: seq<Iface>, primary: bool, k: int) {
    if k == -1 then NoCandidate(t, primary) else FirstLeast(t, primary, k)
  }

  /** The choice of one kind among the first `n` interfaces, by a scan that looks at that
      kind only. */
  function BestOf(t: seq<Iface>, n: nat, primary: bool): (k: int)
    requires n <= |t|
    ensures -1 <= k < n
  {
    if n == 0 then -1
    else
      var k := BestOf(t, n - 1, primary);
      if Candidate(t[n - 1], primary) && (k == -1 || t[n - 1].wan.priority < t[k].wan.priority) then n - 1 else k
  }

  function Best(t: seq<Iface>, primary: bool): int {
    BestOf(t, |t|, primary)
  }

  lemma {:induction false} BestOfIsChoice(t: seq<Iface>, n: nat, primary: bool)
    requires n <= |t|
    ensures IsChoice(t[..n], primary, BestOf(t, n, primary))
  {
    if n > 0 {
      BestOfIsChoice(t, n - 1, primary);
      assert t[..n] == t[..n - 1] + [t[n - 1]];
    }
  }

  /** The scan finds the first candidate of least priority, or that there is none. */
  lemma BestIsChoice(t: seq<Iface>, primary: bool)
    ensures IsChoice(t, primary, Best(t, primary))
  {
    BestOfIsChoice(t, |t|, primary);
    assert t[..|t|] == t;
  }

  lemma ChoiceIsUnique(t: seq<Iface>, primary: bool, a: int, b: int)
    requires IsChoice(t, primary, a) && IsChoice(t, primary, b)
    ensures a == b
  {
    if a != -1 && b != -1 {
      assert Candidate(t[a], primary) && Candidate(t[b], primary);
    }
  }

  function Select(w: World, primary: bool): int {
    if w.policy.enable then Best(w.table, primary) else -1
  }

  predicate AllDown(t: seq<Iface>) {
    forall i :: 0 <= i < |t| ==> t[i].wan.status == Disabled
  }

  // ---- Transitions ----

  predicate InTable(t: seq<Iface>, k: int) {
    0 <= k < |t|
  }

  function SetLink(t: seq<Iface>, k: int, on: bool): (r: seq<Iface>)
    ensures |r| == |t|
  {
    if InTable(t, k) then t[k := t[k].(wan := t[k].wan.(activeLink := on))] else t
  }

  /** The active flag moves to interface `k`, whose state machine is started. */
  function Activate(w: World, k: int): World {
    if InTable(w.table, k) then w.(table := SetLink(w.table, k, true), starts := w.starts + [k]) else w
  }

  /** `held` is the interface that was active when the tick began. */
  function PrimarySelected(w: World, held: int, standby: bool): World {
    var st := if standby && w.policy.secondary >= 0 then PrimaryWanActiveSecondaryWanUp else PrimaryWanActive;
    Activate(w.(table := SetLink(w.table, held, false)), w.policy.active).(policy := w.policy.(st := st))
  }

  function PrimaryDeselected(w: World, held: int): World {
    w.(table := SetLink(w.table, held, false), policy := w.policy.(st := InterfaceDown, active := -1))
  }

  function PrimaryChanged(w: World, held: int): World {
    var w1 := w.(table := SetLink(w.table, held, false));
    var k := Select(w1, true);
    Activate(w1, k).(policy := w.policy.(st := PrimaryWanActiveSecondaryWanUp, active := k))
  }

  function SecondarySelected(w: World, held: int): World {
    var k := w.policy.secondary;
    var w1 := w.(table := SetLink(w.table, held, false));
    if InTable(w.table, k)
    then Activate(w1, k).(policy := w.policy.(st := SecondaryWanActive, active := k))
    else w1.(policy := w.policy.(st := InterfaceDown, active := k))
  }

  function SecondaryDeselected(w: World, held: int): World {
    w.(table := SetLink(w.table, held, false),
       policy := w.policy.(st := InterfaceDown, active := -1, secondary := -1))
  }

  predicate SecondaryStartable(t: seq<Iface>, k: int) {
    && InTable(t, k) && t[k].wan.enable && t[k].wan.status == Disabled && t[k].phy == PhyUp
    && t[k].wan.linkStatus == LinkDown && t[k].wan.kind == Secondary
  }

  function SecondaryUp(w: World): World {
    var k := w.policy.secondary;
    if SecondaryStartable(w.table, k)
    then w.(starts := w.starts + [k], policy := w.policy.(st := PrimaryWanActiveSecondaryWanUp))
    else w.(policy := w.policy.(st := PrimaryWanActive, secondary := -1))
  }

  function SecondaryDown(w: World): World {
    w.(policy := w.policy.(st := PrimaryWanActive, secondary := -1))
  }

  // ---- States ----

  /** Primaries go before the other kinds. */
  function WanChosen(w: World, held: int, standby: bool): World {
    var p, s := Select(w, true), Select(w, false);
    if p != -1 then PrimarySelected(w.(policy := w.policy.(active := p)), held, standby)
    else if s != -1 then SecondarySelected(w.(policy := w.policy.(active := s, secondary := s)), held)
    else w.(policy := w.policy.(st := InterfaceDown))
  }

  function WanDown(w: World, held: int, standby: bool): World {
    if !standby && !AllDown(w.table) then w.(policy := w.policy.(st := InterfaceDown))
    else WanChosen(w, held, standby)
  }

  /** The active interface no longer qualifies for its role. */
  predicate Unfit(w: World, held: int, role: WanType)
    requires InTable(w.table, held)
  {
    var a := w.table[held];
    !w.policy.enable || a.phy == PhyDown || a.wan.kind != role || !a.wan.enable
  }

  function PrimaryActive(w: World, held: int, standby: bool): World {
    if !InTable(w.table, held) then w.(policy := w.policy.(st := InterfaceDown))
    else if Unfit(w, held, Primary) || Select(w, true) != w.policy.active then PrimaryDeselected(w, held)
    else if standby && Select(w, false) != w.policy.secondary
    then SecondaryUp(w.(policy := w.policy.(secondary := Select(w, false))))
    else w.(policy := w.policy.(st := PrimaryWanActive))
  }

  function SecondaryActive(w: World, held: int, standby: bool): World {
    if !InTable(w.table, held) then w.(policy := w.policy.(st := InterfaceDown))
    else if Unfit(w, held, Secondary) || Select(w, false) != w.policy.active then SecondaryDeselected(w, held)
    else if Select(w, true) == -1 then w.(policy := w.policy.(st := SecondaryWanActive))
    else if standby then PrimarySelected(w.(policy := w.policy.(active := Select(w, true))), held, standby)
    else SecondaryDeselected(w, held)
  }

  function BothActive(w: World, held: int): World {
    if !InTable(w.table, held) then w.(policy := w.policy.(st := InterfaceDown))
    else if Unfit(w, held, Primary) then SecondarySelected(w, held)
    else if Select(w, true) != w.policy.active then PrimaryChanged(w, held)
    else if Select(w, false) == -1 then SecondaryDown(w)
    else if Select(w, false) != w.policy.secondary
    then SecondaryUp(w.(policy := w.policy.(secondary := Select(w, false))))
    else w.(policy := w.policy.(st := PrimaryWanActiveSecondaryWanUp))
  }

  function RunState(w: World, held: int, standby: bool): World {
    match w.policy.st
    case InterfaceDown => WanDown(w, held, standby)
    case PrimaryWanActive => PrimaryActive(w, held, standby)
    case SecondaryWanActive => SecondaryActive(w, held, standby)
    case PrimaryWanActiveSecondaryWanUp => BothActive(w, held)
  }

  /** One tick: read the global enable, fetch the active record, run the state. */
  function Tick(w: World, globalEnable: bool, standby: bool): World {
    RunState(w.(policy := w.policy.(enable := globalEnable)), w.policy.active, standby)
  }

  // ---- What every tick keeps ----

  predicate IndicesInTable(p: Policy, n: nat) {
    -1 <= p.active < n && -1 <= p.secondary < n
  }

  /** At most one interface carries the active link, and it is the active one. */
  predicate ActiveLinkOk(p: Policy, t: seq<Iface>) {
    forall i :: 0 <= i < |t| && t[i].wan.activeLink ==> i == p.active
  }

  /** The two tables agree on everything but the active flags. */
  predicate SameButLinks(t: seq<Iface>, u: seq<Iface>) {
    && |t| == |u|
    && forall i :: 0 <= i < |t| ==> u[i] == t[i].(wan := t[i].wan.(activeLink := u[i].wan.activeLink))
  }

  lemma SetLinkChangesOneFlag(t: seq<Iface>, k: int, on: bool)
    ensures SameButLinks(t, SetLink(t, k, on))
    ensures forall i :: 0 <= i < |t| ==> SetLink(t, k, on)[i].wan.activeLink == if i == k then on else t[i].wan.activeLink
  {
  }

  /** The active flag is on `k` or nowhere. */
  predicate LinkOnlyAt(t: seq<Iface>, k: int) {
    forall i :: 0 <= i < |t| && t[i].wan.activeLink ==> i == k
  }

  lemma DroppedLink(t: seq<Iface>, held: int)
    requires LinkOnlyAt(t, held)
    ensures LinkOnlyAt(SetLink(t, held, false), -1) && SameButLinks(t, SetLink(t, held, false))
  {
    SetLinkChangesOneFlag(t, held, false);
  }

  /** Dropping the flag from `held` and giving it to `k` leaves it on `k` only. */
  lemma MovedLink(w: World, held: int, k: int)
    requires LinkOnlyAt(w.table, held)
    ensures var a := Activate(w.(table := SetLink(w.table, held, false)), k);
            LinkOnlyAt(a.table, k) && SameButLinks(w.table, a.table)
  {
    DroppedLink(w.table, held);
    SetLinkChangesOneFlag(SetLink(w.table, held, false), k, true);
  }

  /** What `t` keeps of `w`: indices in the table, the flag on the active interface only,
      and the rest of the table; what it starts is in the table. */
  predicate Keeps(w: World, t: World) {
    && IndicesInTable(t.policy, |w.table|) && ActiveLinkOk(t.policy, t.table) && SameButLinks(w.table, t.table)
    && forall k :: k in t.starts ==> k in w.starts || k < |w.table|
  }

  lemma PrimarySelectedKeeps(w: World, held: int, standby: bool)
    requires LinkOnlyAt(w.table, held) && IndicesInTable(w.policy, |w.table|)
    ensures Keeps(w, PrimarySelected(w, held, standby))
  {
    MovedLink(w, held, w.policy.active);
  }

  lemma SecondarySelectedKeeps(w: World, held: int)
    requires LinkOnlyAt(w.table, held) && IndicesInTable(w.policy, |w.table|)
    ensures Keeps(w, SecondarySelected(w, held))
  {
    DroppedLink(w.table, held);
    MovedLink(w, held, w.policy.secondary);
  }

  lemma PrimaryChangedKeeps(w: World, held: int)
    requires LinkOnlyAt(w.table, held) && IndicesInTable(w.policy, |w.table|)
    ensures Keeps(w, PrimaryChanged(w, held))
  {
    MovedLink(w, held, Select(w.(table := SetLink(w.table, held, false)), true));
  }

  lemma WanDownKeeps(w: World, held: int, standby: bool)
    requires ActiveLinkOk(w.policy, w.table) && IndicesInTable(w.policy, |w.table|) && held == w.policy.active
    ensures Keeps(w, WanDown(w, held, standby))
  {
    var p, s := Select(w, true), Select(w, false);
    PrimarySelectedKeeps(w.(policy := w.policy.(active := p)), held, standby);
    SecondarySelectedKeeps(w.(policy := w.policy.(active := s, secondary := s)), held);
  }

  lemma DeselectedKeeps(w: World, held: int)
    requires LinkOnlyAt(w.table, held) && IndicesInTable(w.policy, |w.table|)
    ensures Keeps(w, PrimaryDeselected(w, held)) && Keeps(w, SecondaryDeselected(w, held))
  {
    DroppedLink(w.table, held);
  }

  lemma SecondaryUpKeeps(w: World)
    requires ActiveLinkOk(w.policy, w.table) && IndicesInTable(w.policy, |w.table|)
    ensures Keeps(w, w.(policy := w.policy.(st := InterfaceDown)))
    ensures Keeps(w, SecondaryUp(w)) && Keeps(w, SecondaryDown(w))
  {
    assert SameButLinks(w.table, w.table);
  }

  lemma PrimaryActiveKeeps(w: World, held: int, standby: bool)
    requires ActiveLinkOk(w.policy, w.table) && IndicesInTable(w.policy, |w.table|) && held == w.policy.active
    ensures Keeps(w, PrimaryActive(w, held, standby))
  {
    DeselectedKeeps(w, held);
    SecondaryUpKeeps(w);
    SecondaryUpKeeps(w.(policy := w.policy.(secondary := Select(w, false))));
  }

  lemma SecondaryActiveKeeps(w: World, held: int, standby: bool)
    requires ActiveLinkOk(w.policy, w.table) && IndicesInTable(w.policy, |w.table|) && held == w.policy.active
    ensures Keeps(w, SecondaryActive(w, held, standby))
  {
    DeselectedKeeps(w, held);
    SecondaryUpKeeps(w);
    PrimarySelectedKeeps(w.(policy := w.policy.(active := Select(w, true))), held, standby);
  }

  lemma BothActiveKeeps(w: World, held: int)
    requires ActiveLinkOk(w.policy, w.table) && IndicesInTable(w.policy, |w.table|) && held == w.policy.active
    ensures Keeps(w, BothActive(w, held))
  {
    SecondarySelectedKeeps(w, held);
    PrimaryChangedKeeps(w, held);
    SecondaryUpKeeps(w);
    SecondaryUpKeeps(w.(policy := w.policy.(secondary := Select(w, false))));
  }

  /** With or without standby, every tick keeps the indices in the table and the active
      flag on the active interface only, and changes nothing else in the table. */
  lemma TickKeepsActiveLink(w: World, globalEnable: bool, standby: bool)
    requires IndicesInTable(w.policy, |w.table|) && ActiveLinkOk(w.policy, w.table)
    ensures Keeps(w, Tick(w, globalEnable, standby))
  {
    var v := w.(policy := w.policy.(enable := globalEnable));
    match w.policy.st
    case InterfaceDown => WanDownKeeps(v, w.policy.active, standby);
    case PrimaryWanActive => PrimaryActiveKeeps(v, w.policy.active, standby);
    case SecondaryWanActive => SecondaryActiveKeeps(v, w.policy.active, standby);
    case PrimaryWanActiveSecondaryWanUp => BothActiveKeeps(v, w.policy.active);
  }

  /** Selection does not look at the active flags. */
  lemma SelectIgnoresLinks(t: seq<Iface>, u: seq<Iface>, primary: bool)
    requires SameButLinks(t, u)
    ensures Best(t, primary) == Best(u, primary)
  {
    var k := Best(t, primary);
    BestIsChoice(t, primary);
    BestIsChoice(u, primary);
    assert forall i :: 0 <= i < |t| ==> Candidate(u[i], primary) == Candidate(t[i], primary);
    assert forall i :: 0 <= i < |t| ==> u[i].wan.priority == t[i].wan.priority;
    assert IsChoice(u, primary, k);
    ChoiceIsUnique(u, primary, k, Best(u, primary));
  }

  /** After every tick without standby, an active primary is the first eligible primary of
      least priority; an active secondary is the first least-priority interface of the
      other kinds while no primary is eligible. */
  lemma TickSelectsBest(w: World, globalEnable: bool)
    requires IndicesInTable(w.policy, |w.table|) && ActiveLinkOk(w.policy, w.table)
    requires w.policy.st != PrimaryWanActiveSecondaryWanUp
    ensures var t := Tick(w, globalEnable, false);
            && t.policy.st != PrimaryWanActiveSecondaryWanUp
            && (t.policy.st == PrimaryWanActive ==> globalEnable && FirstLeast(t.table, true, t.policy.active))
            && (t.policy.st == SecondaryWanActive ==>
                  globalEnable && NoCandidate(t.table, true) && FirstLeast(t.table, false, t.policy.active))
  {
    var t := Tick(w, globalEnable, false);
    TickFollowsSelect(w, globalEnable);
    TickKeepsActiveLink(w, globalEnable, false);
    SelectIgnoresLinks(w.table, t.table, true);
    SelectIgnoresLinks(w.table, t.table, false);
    BestIsChoice(t.table, true);
    BestIsChoice(t.table, false);
  }

  /** The state and index a tick ends with, in terms of its two selections. */
  lemma TickFollowsSelect(w: World, globalEnable: bool)
    requires IndicesInTable(w.policy, |w.table|) && w.policy.st != PrimaryWanActiveSecondaryWanUp
    ensures var t := Tick(w, globalEnable, false);
            var p, s := if globalEnable then Best(w.table, true) else -1, if globalEnable then Best(w.table, false) else -1;
            && t.policy.st != PrimaryWanActiveSecondaryWanUp
            && (t.policy.st == PrimaryWanActive ==> t.policy.active == p != -1)
            && (t.policy.st == SecondaryWanActive ==> t.policy.active == s != -1 && p == -1)
  {
  }

  /** Without standby a tick starts a machine only from INTERFACE_DOWN with every interface
      disabled, and then exactly one: the machine of the interface it makes active. */
  lemma TickStartsOnlyWhenAllDown(w: World, globalEnable: bool)
    requires IndicesInTable(w.policy, |w.table|) && w.policy.st != PrimaryWanActiveSecondaryWanUp
    ensures var t := Tick(w, globalEnable, false);
            || t.starts == w.starts
            || (&& w.policy.st == InterfaceDown && AllDown(w.table) && InTable(w.table, t.policy.active)
                && t.starts == w.starts + [t.policy.active])
  {
  }

  /** In INTERFACE_DOWN, once every interface is disabled, an eligible interface is started
      by the very next tick. */
  lemma TickStartsWhenAllDown(w: World, standby: bool)
    requires w.policy.st == InterfaceDown && AllDown(w.table)
    requires !NoCandidate(w.table, true) || !NoCandidate(w.table, false)
    ensures var t := Tick(w, true, standby);
            |t.starts| == |w.starts| + 1 && t.starts[|w.starts|] == t.policy.active
  {
    var v := w.(policy := w.policy.(enable := true));
    BestIsChoice(w.table, true);
    BestIsChoice(w.table, false);
    assert Select(v, true) != -1 || Select(v, false) != -1;
  }

  /** The active interface still qualifies for its role and is still the choice. Link state
      and Wan.Status play no part in this. */
  predicate StillSelected(w: World) {
    var t, k := w.table, w.policy.active;
    && InTable(t, k) && t[k].phy != PhyDown && t[k].wan.enable
    && match w.policy.st
       case PrimaryWanActive => t[k].wan.kind == Primary && FirstLeast(t, true, k)
       case SecondaryWanActive => t[k].wan.kind == Secondary && FirstLeast(t, false, k) && NoCandidate(t, true)
       case _ => false
  }

  /** No interface carries the active link, and no index points at one. */
  predicate Cleared(t: World) {
    t.policy.st == InterfaceDown && t.policy.active == -1 && forall i :: 0 <= i < |t.table| ==> !t.table[i].wan.activeLink
  }

  lemma StillSelectedBest(w: World)
    requires InTable(w.table, w.policy.active)
    ensures FirstLeast(w.table, true, w.policy.active) <==> Best(w.table, true) == w.policy.active
    ensures FirstLeast(w.table, false, w.policy.active) <==> Best(w.table, false) == w.policy.active
    ensures NoCandidate(w.table, true) <==> Best(w.table, true) == -1
  {
    forall primary
      ensures FirstLeast(w.table, primary, w.policy.active) <==> Best(w.table, primary) == w.policy.active
      ensures NoCandidate(w.table, primary) <==> Best(w.table, primary) == -1
    {
      BestIsChoice(w.table, primary);
      if FirstLeast(w.table, primary, w.policy.active) {
        ChoiceIsUnique(w.table, primary, w.policy.active, Best(w.table, primary));
      }
    }
  }

  /** As long as that is so, a tick changes nothing: with every machine gone, WAN stays down. */
  lemma StillSelectedStays(w: World)
    requires StillSelected(w)
    ensures var t := Tick(w, true, false);
            t == w.(policy := w.policy.(enable := true)) && StillSelected(t)
  {
    StillSelectedBest(w);
  }

  /** A selection that does not stand any more, or a disabled WAN, clears the active index and
      every active flag; nothing else in the table changes and nothing is started. A selection
      that stands keeps its index. */
  lemma DeselectedIff(w: World, globalEnable: bool)
    requires w.policy.st == PrimaryWanActive || w.policy.st == SecondaryWanActive
    requires IndicesInTable(w.policy, |w.table|) && ActiveLinkOk(w.policy, w.table)
    ensures var t := Tick(w, globalEnable, false);
            && (Cleared(t) <==> !(globalEnable && StillSelected(w)))
            && (!Cleared(t) ==> t.policy.st == w.policy.st && t.policy.active == w.policy.active)
            && SameButLinks(w.table, t.table) && t.starts == w.starts
  {
    TickKeepsActiveLink(w, globalEnable, false);
    if InTable(w.table, w.policy.active) {
      StillSelectedBest(w);
      SetLinkChangesOneFlag(w.table, w.policy.active, false);
    }
  }

  /** INTERFACE_DOWN means that no interface is active: no index, and no active flag anywhere. */
  predicate DownIsCleared(p: Policy, t: seq<Iface>) {
    p.st == InterfaceDown ==> p.active == -1 && forall i :: 0 <= i < |t| ==> !t[i].wan.activeLink
  }

  /** Every tick keeps this, with or without standby. */
  lemma TickKeepsDownCleared(w: World, globalEnable: bool, standby: bool)
    requires IndicesInTable(w.policy, |w.table|) && ActiveLinkOk(w.policy, w.table) && DownIsCleared(w.policy, w.table)
    ensures var t := Tick(w, globalEnable, standby); DownIsCleared(t.policy, t.table)
  {
    TickKeepsActiveLink(w, globalEnable, standby);
    var t := Tick(w, globalEnable, standby);
    if t.policy.st == InterfaceDown { DownHasNoIndex(w, globalEnable, standby); }
  }

  lemma DownHasNoIndex(w: World, globalEnable: bool, standby: bool)
    requires IndicesInTable(w.policy, |w.table|) && (w.policy.st == InterfaceDown ==> w.policy.active == -1)
    ensures var t := Tick(w, globalEnable, standby); t.policy.st == InterfaceDown ==> t.policy.active == -1
  {
  }

  lemma LinksDoNotMatter(t: seq<Iface>, u: seq<Iface>)
    requires SameButLinks(t, u)
    ensures forall primary :: NoCandidate(t, primary) <==> NoCandidate(u, primary)
    ensures AllDown(t) <==> AllDown(u)
  {
    forall primary ensures NoCandidate(t, primary) <==> NoCandidate(u, primary) {
      assert forall j :: 0 <= j < |t| ==> Candidate(u[j], primary) == Candidate(t[j], primary);
    }
    assert forall j :: 0 <= j < |t| ==> u[j].wan.status == t[j].wan.status;
  }

  /** A secondary winner is kept by the next tick exactly if it is of type SECONDARY: selection
      takes every non-primary, but the active state insists on the type, and drops a winner of
      unconfigured type. */
  lemma SecondaryWinnerStaysIff(w: World)
    requires w.policy.st == InterfaceDown && w.policy.active == -1 && AllDown(w.table)
    requires NoCandidate(w.table, true) && FirstLeast(w.table, false, Best(w.table, false))
    ensures var once := Tick(w, true, false);
            && once.policy.st == SecondaryWanActive && |once.starts| == |w.starts| + 1
            && (Tick(once, true, false).policy.st == SecondaryWanActive <==> w.table[Best(w.table, false)].wan.kind == Secondary)
  {
    var k := Best(w.table, false);
    BestIsChoice(w.table, true);
    ChoiceIsUnique(w.table, true, -1, Best(w.table, true));
    var once := Tick(w, true, false);
    assert once.policy.active == k && once.table[k].wan.kind == w.table[k].wan.kind;
    assert SameButLinks(w.table, once.table) by { SetLinkChangesOneFlag(w.table, k, true); }
    SelectIgnoresLinks(w.table, once.table, true);
    SelectIgnoresLinks(w.table, once.table, false);
  }
}
