// What one tick of the policy does with standby (build option WAN_ENABLE_STANDBY), told by the
// fields of the table before and after: when the active link moves, and when a machine starts.

module PolicyStandby {
  import opened WanTypes
  import opened PolicySpec

  /** The interface qualifies for the role of the active one. */
  predicate Fits(t: seq<Iface>, k: int, role: WanType) {
    InTable(t, k) && t[k].phy != PhyDown && t[k].wan.enable && t[k].wan.kind == role
  }

  /** The tick starts the machine of the interface it leaves active, and of no other; this
      interface alone carries the active link. */
  predicate TakesOver(w: World, t: World) {
    && InTable(t.table, t.policy.active) && t.starts == w.starts + [t.policy.active]
    && forall i :: 0 <= i < |t.table| ==> (t.table[i].wan.activeLink <==> i == t.policy.active)
  }

  /** The secondary is ready for a machine of its own: up, with its link down. */
  predicate Ready(ifc: Iface) {
    && ifc.wan.enable && ifc.wan.kind == Secondary && ifc.phy == PhyUp
    && ifc.wan.linkStatus == LinkDown && ifc.wan.status == Disabled
  }

  /** The tick starts the machine of the secondary beside the active primary. */
  predicate StandsBy(w: World, t: World) {
    && InTable(t.table, t.policy.secondary) && t.starts == w.starts + [t.policy.secondary]
    && t.policy.st == PrimaryWanActiveSecondaryWanUp && t.policy.active == w.policy.active && t.table == w.table
  }

  /** The tick moves no link and starts nothing. */
  predicate Rests(w: World, t: World, st: PolicyState) {
    t.policy.st == st && t.policy.active == w.policy.active && t.table == w.table && t.starts == w.starts
  }

  /** In every state of a run. */
  predicate Sound(w: World) {
    IndicesInTable(w.policy, |w.table|) && ActiveLinkOk(w.policy, w.table) && DownIsCleared(w.policy, w.table)
  }

  lemma BestFacts(t: seq<Iface>)
    ensures FirstLeast(t, true, Best(t, true)) || (Best(t, true) == -1 && NoCandidate(t, true))
    ensures FirstLeast(t, false, Best(t, false)) || (Best(t, false) == -1 && NoCandidate(t, false))
    ensures forall k, primary :: FirstLeast(t, primary, k) ==> k == Best(t, primary)
    ensures forall k, primary :: FirstLeast(t, primary, k) ==> !NoCandidate(t, primary)
  {
    BestIsChoice(t, true);
    BestIsChoice(t, false);
    forall k, primary | FirstLeast(t, primary, k) ensures k == Best(t, primary) && !NoCandidate(t, primary) {
      BestIsChoice(t, primary);
      ChoiceIsUnique(t, primary, k, Best(t, primary));
    }
  }

  /** From INTERFACE_DOWN the best primary takes over, else the best of the others; without
      either, or with WAN disabled, nothing happens. The machines still running are not
      waited for. */
  lemma StandbyDown(w: World, globalEnable: bool)
    requires Sound(w) && w.policy.st == InterfaceDown
    ensures var t, some, other := Tick(w, globalEnable, true), !NoCandidate(w.table, true), !NoCandidate(w.table, false);
            && (globalEnable && some ==>
                  && TakesOver(w, t) && FirstLeast(w.table, true, t.policy.active)
                  && t.policy.st == if w.policy.secondary >= 0 then PrimaryWanActiveSecondaryWanUp else PrimaryWanActive)
            && (globalEnable && !some && other ==>
                  && TakesOver(w, t) && FirstLeast(w.table, false, t.policy.active)
                  && t.policy.st == SecondaryWanActive && t.policy.secondary == t.policy.active)
            && (!globalEnable || (!some && !other) ==> Rests(w, t, InterfaceDown))
  {
    BestFacts(w.table);
  }

  /** The active primary is given up exactly if it does not fit or is not the best any more.
      Else a new best secondary that is ready is started, one that is not is forgotten. */
  lemma StandbyPrimary(w: World, globalEnable: bool)
    requires Sound(w) && w.policy.st == PrimaryWanActive
    ensures var t, s := Tick(w, globalEnable, true), Best(w.table, false);
            var stays := globalEnable && Fits(w.table, w.policy.active, Primary) && FirstLeast(w.table, true, w.policy.active);
            && (!stays ==> Cleared(t) && t.starts == w.starts)
            && (stays && s == w.policy.secondary ==> Rests(w, t, PrimaryWanActive) && t.policy.secondary == s)
            && (stays && s != w.policy.secondary ==>
                  if s != -1 && Ready(w.table[s]) then StandsBy(w, t) && t.policy.secondary == s
                  else Rests(w, t, PrimaryWanActive) && t.policy.secondary == -1)
  {
    BestFacts(w.table);
    SetLinkChangesOneFlag(w.table, w.policy.active, false);
  }

  /** The active secondary is given up exactly if it does not fit or is not the best of its
      kind; to an eligible primary it hands over at once. */
  lemma StandbySecondary(w: World, globalEnable: bool)
    requires Sound(w) && w.policy.st == SecondaryWanActive
    ensures var t, some := Tick(w, globalEnable, true), !NoCandidate(w.table, true);
            var stays := globalEnable && Fits(w.table, w.policy.active, Secondary) && FirstLeast(w.table, false, w.policy.active);
            && (!stays ==> Cleared(t) && t.starts == w.starts && (w.policy.active != -1 ==> t.policy.secondary == -1))
            && (stays && !some ==> Rests(w, t, SecondaryWanActive))
            && (stays && some ==>
                  && TakesOver(w, t) && FirstLeast(w.table, true, t.policy.active) && t.policy.secondary == w.policy.secondary
                  && t.policy.st == if w.policy.secondary >= 0 then PrimaryWanActiveSecondaryWanUp else PrimaryWanActive)
  {
    BestFacts(w.table);
    SetLinkChangesOneFlag(w.table, w.policy.active, false);
    if InTable(w.table, w.policy.active) {
      SetLinkChangesOneFlag(SetLink(w.table, w.policy.active, false), Best(w.table, true), true);
    }
  }

  predicate PrimaryFits(w: World, globalEnable: bool) {
    globalEnable && Fits(w.table, w.policy.active, Primary)
  }

  /** With both up, a primary that does not fit hands over to the secondary. */
  lemma StandbyFallsBack(w: World, globalEnable: bool)
    requires Sound(w) && w.policy.st == PrimaryWanActiveSecondaryWanUp && w.policy.active != -1
    requires !PrimaryFits(w, globalEnable)
    ensures var t := Tick(w, globalEnable, true);
            if w.policy.secondary == -1 then Cleared(t) && t.starts == w.starts
            else TakesOver(w, t) && t.policy.active == w.policy.secondary && t.policy.st == SecondaryWanActive
  {
    var k := w.policy.active;
    SetLinkChangesOneFlag(w.table, k, false);
    SetLinkChangesOneFlag(SetLink(w.table, k, false), w.policy.secondary, true);
  }

  /** One that fits but is not the best hands over to the best primary, or to none. */
  lemma StandbyChanges(w: World, globalEnable: bool)
    requires Sound(w) && w.policy.st == PrimaryWanActiveSecondaryWanUp && PrimaryFits(w, globalEnable)
    requires !FirstLeast(w.table, true, w.policy.active)
    ensures var t := Tick(w, globalEnable, true);
            && t.policy.st == PrimaryWanActiveSecondaryWanUp
            && if NoCandidate(w.table, true)
               then t.policy.active == -1 && t.starts == w.starts && forall i :: 0 <= i < |t.table| ==> !t.table[i].wan.activeLink
               else TakesOver(w, t) && FirstLeast(w.table, true, t.policy.active)
  {
    var dropped := SetLink(w.table, w.policy.active, false);
    BestFacts(w.table);
    SetLinkChangesOneFlag(w.table, w.policy.active, false);
    SelectIgnoresLinks(w.table, dropped, true);
    SetLinkChangesOneFlag(dropped, Best(w.table, true), true);
  }

  /** While the primary stays, the secondary is followed as from PRIMARY_WAN_ACTIVE. */
  lemma StandbyBoth(w: World, globalEnable: bool)
    requires Sound(w) && w.policy.st == PrimaryWanActiveSecondaryWanUp && PrimaryFits(w, globalEnable)
    requires FirstLeast(w.table, true, w.policy.active)
    ensures var t, s := Tick(w, globalEnable, true), Best(w.table, false);
            && (s == w.policy.secondary != -1 ==> Rests(w, t, PrimaryWanActiveSecondaryWanUp))
            && (s != w.policy.secondary || s == -1 ==>
                  if s != -1 && Ready(w.table[s]) then StandsBy(w, t) && t.policy.secondary == s
                  else Rests(w, t, PrimaryWanActive) && t.policy.secondary == -1)
  {
    BestFacts(w.table);
  }

  /** A primary handed over to none is followed by INTERFACE_DOWN. */
  lemma StandbyNone(w: World, globalEnable: bool)
    requires Sound(w) && w.policy.st == PrimaryWanActiveSecondaryWanUp && w.policy.active == -1
    ensures var t := Tick(w, globalEnable, true); Cleared(t) && t.starts == w.starts && t.policy.secondary == w.policy.secondary
  {
    assert forall i :: 0 <= i < |w.table| ==> !w.table[i].wan.activeLink;
  }
}
