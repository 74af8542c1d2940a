# WAN manager: control plane, DHCP tables and address codecs

A Dafny model of the RDK WAN manager, with proofs about it.

**Control plane.** The primary-priority policy thread picks the interface that carries WAN and
starts one interface state machine thread per selection. Each machine configures, validates,
obtains addresses, holds IPv4, IPv6 or both, refreshes, deconfigures and exits. DHCP messages
reach it through a one-slot mailbox per address family, under one recursive lock.

* `WanTypes` and `WanDatabase`: the shared records, and the table behind its lock.
* `InterfaceSpec` and `PolicySpec`: what one tick of a machine and of the policy does, as
  functions on values. `InterfaceMachine` and `PolicyController` are the threads as they run:
  classes that assign fields under the lock, every method proved equal to its function.
* `InterfaceLemmas`, `InterfaceProgress`, `MessageLemmas`: what each tick of a machine keeps,
  where it gets to, and what each message leaves, told by the fields of the record.
  `PolicyStandby`: the same for the policy with standby.
* `WanSystem`: policy, threads and environment as one transition system, and what holds in
  every run of it; `WanStops`: from the decision to give an interface up to the end of its
  connection; `WanRuns`: runs into two states it should not be in. `Mailbox`: message
  conservation over runs, and the retrying producer.

**Tables.** `SentOptions` keeps an array, syscfg entries and a file in agreement; `OptionFile`
is the reader of that file. `Dhcpv4Registry` saves a client and option tree to a registry, loads
it back, and says what any number of such cycles leaves; `RegistryLayout` where it puts them.

**Codecs.** `GlobalAddress` and `GlobalAddressLemmas` (modified EUI-64 address in a text
buffer), `Ipv4List` (comma-separated addresses), `PrefixAllocation` (one /64 per interface),
`MapT` (embedded address bits), `ParseArgs` (two-pass argument vector). `Text` and `Bits` are
shared.

Where the code does not do what it is for, the model keeps the code and states the exact
condition:

* Two expiry messages in one dual-stack tick leave `ipv6_connection_state` up with no lease
  (`StepKeepsIpv6HolderIff`, `StrandedRun`).
* After a link was lost the policy starts the next machine within two ticks, except while the
  old selection stands, which does not look at the link: then WAN stays down (`FailoverFollows`,
  `RestartsIff`, `StuckRun`).
* The guard of the address assembly asks for a colon in either of the last two places where
  both are meant. `AssembledReads` says what every text gives, `AssembledIsRightIff` for which
  accepted addresses the prefix survives.
* The MAP-T split reads from a byte boundary, so it is right exactly for rule prefix lengths
  divisible by 8 (`RightForAllPrefixesIff`), and the last byte of the shared address is right
  exactly below 255 (`SharedAddressIff`).
* The 253rd interface name gets the first reserved /64 (`DisjointIff`).
* The list printer asks for a length that a full table may still exceed; when it does is a
  matter of decimal digits (`GetIpaddrString`, `RetryFits`). A printed 255.255.255.255 cannot be
  read back (`ParseOfPrintedIff`).
* A changed IPv4 lease is configured at once only while obtaining addresses or in a steady
  IPV6_LEASED. IPV4_LEASED tears IPv4 down and needs the message again; DUAL_STACK_ACTIVE keeps
  the lease unconfigured however often it comes (`ChangedLeaseConfiguredIff`,
  `DualStackNeverConfigures`, `PendingIsTornDown`, `ChangedLeaseNeedsSecondMessage`).
* A secondary winner that is not of type SECONDARY is dropped again (`SecondaryWinnerStaysIff`).
* A save loses committed options, and the loss takes up to three cycles to settle
  (`CycleIsIdentityIff`, `TwoCyclesSettleIff`, `ThreeCyclesSettle`).
* A DHCPv6 message that adds an address and sends its own prefix with a zero lifetime takes its
  lease down when it is repeated (`SameMessageTearsDownIff`).
* A restart reads the instance number of each sent option as its tag (`ReadBackIff`, `Restart`),
  and a value with a line end breaks the file (`FileReadsIff`).
* Deleting a sent option always unsets namespaced keys, so the last un-namespaced entry stays behind
  (`SentOptions.Table.Delete`).

`dafny verify dfyconfig.toml` covers the whole project.

The specifications of a tick follow the code branch by branch; the lemmas that say what a tick
means, among them the four guards of `MustStop`, are written on the fields of the record instead.

The table below lists the results and the methods that carry them. Each transition, state and
message handler is a method of its own in the two controller classes, with a contract that
names the part of the tick it is; the two `RunTick` rows sum them up.

## Model

| member | source | states |
|---|---|---|
| WanSystem.OneMachineInEveryRun | source/WanManager/wanmgr_policy_pp_impl.c:134-515 | In every run without standby at most one interface machine is between start and exit; Wan.Status is not DISABLED for exactly the interface of that machine; `ipv4_connection_state` is up only while some machine holds an IPv4 lease; IPV4_OVER_IPV6_ACTIVE is never reached |
| WanSystem.StepKeepsInv | source/WanManager/wanmgr_interface_sm.c:921-957 | Every single step of a thread, of the policy or of the environment keeps that invariant |
| WanSystem.StartKeepsInv | source/WanManager/wanmgr_interface_sm.c:1832-1851 | A spawned thread's start transition keeps it, although the record it starts on may be any in the table |
| WanSystem.TickKeepsInv | source/WanManager/wanmgr_interface_sm.c:1853-1951 | A tick of any of the threads, with any messages and any platform results, keeps it |
| WanSystem.PolicyKeepsInv | source/WanManager/wanmgr_policy_pp_impl.c:702-754 | A policy tick keeps it: the all-down test really gates the next start |
| WanSystem.ActiveLinkInEveryRun | source/WanManager/wanmgr_policy_pp_impl.c:192-667 | In every run, with or without standby, at most one interface has ActiveLink set and it is the one at the active index |
| WanSystem.SelectionInEveryRun | source/WanManager/wanmgr_policy_pp_impl.c:479-613 | After a policy tick of any run, PRIMARY_WAN_ACTIVE means the active index is the first eligible primary of least priority, SECONDARY_WAN_ACTIVE that no primary is eligible and it is the first least-priority interface of the other kinds |
| WanSystem.LeaseAgreesInEveryRun | source/WanManager/wanmgr_interface_sm.c:1489-1656 | After a machine tick of any run the leased state agrees with Ipv4Status and Ipv6Status, except exactly when the tick took the tunnel transition from an IPv6-only lease |
| WanSystem.Ipv6HeldInQuietRuns | source/WanManager/wanmgr_interface_sm.c:1336-1382 | In every run whose ticks, while `ipv6_connection_state` is up, neither take the tunnel transition nor find both leases of a dual stack dropped, it is up only while some machine holds an IPv6 lease |
| WanSystem.StepKeepsIpv6HolderIff | source/WanManager/wanmgr_interface_sm.c:1578-1655 | Any single step of a reachable state keeps that if and only if it is no such tick |
| WanRuns.StrandedRun | source/WanManager/wanmgr_interface_sm.c:1616-1655 | A run from the beginning in which two expiry messages between two ticks leave the machine obtaining addresses with `ipv6_connection_state` up |
| WanSystem.LinkDownStopsWithinFiveTicks | source/WanManager/wanmgr_interface_sm.c:1435-1754 | From every reachable state: with the link down for the rest of the run, a started machine ticks at most five times more and its thread has ended after the fifth |
| WanSystem.RunDescends | source/WanManager/wanmgr_interface_sm.c:1229-1392 | Over such a run every tick of the machine costs at least one unit of its rank, whatever the other threads, the policy and the messages do |
| WanSystem.MachineEnds | source/WanManager/wanmgr_interface_sm.c:1722-1754 | Four ticks of the working machine with its link down, among any other steps: no machine is live then, unless the policy has started the next one already |
| WanSystem.FailoverFollows | source/WanManager/wanmgr_policy_pp_impl.c:479-613 | From every reachable state, after such a run with WAN enabled and some interface eligible: the next machine has been started, or one of the next two policy ticks starts it on the interface then active, if and only if the old selection does not stand any more |
| WanSystem.RestartsIff | source/WanManager/wanmgr_policy_pp_impl.c:517-613 | With no machine live, one of the next two policy ticks starts one if and only if the active interface no longer fits its role or is no longer the choice |
| WanSystem.StuckForever | source/WanManager/wanmgr_policy_pp_impl.c:537-562 | A selection that stands is left as it is by any number of policy ticks: nothing is started |
| WanRuns.StuckRun | source/WanManager/wanmgr_policy_pp_impl.c:537-562 | A run from the beginning into that state: the link goes down once, the machine ends, the primary stays selected with WAN down |
| WanStops.GuardedMachineStops | source/WanManager/wanmgr_interface_sm.c:1435-1737 | From every reachable state: if at each tick of the working machine the global enable or ActiveLink is FALSE, or Phy.Status or LinkStatus is DOWN, then after at most three ticks it is in DECONFIGURING or gone, and while there `ipv4_connection_state` is down, the IPv6 twin too unless stranded before, whatever messages come |
| WanStops.RunDescendsToStop | source/WanManager/wanmgr_interface_sm.c:1229-1392 | Over such a run every tick costs one unit of the rank to DECONFIGURING, and the rank stays zero there |
| WanStops.DeselectedMachineStops | source/WanManager/wanmgr_policy_pp_impl.c:255-283 | From every reachable state whose selection does not stand any more, with no assumption on what follows: a policy tick clears every active flag, and three ticks later the deselected machine is in DECONFIGURING or gone with its connections down |
| WanStops.DownIsClearedInEveryRun | source/WanManager/wanmgr_policy_pp_impl.c:255-283 | In every run, with or without standby, INTERFACE_DOWN means active index -1 and ActiveLink nowhere |
| InterfaceLemmas.TickKeepsIpv4Held | source/WanManager/wanmgr_interface_sm.c:1229-1273 | IPv4 is torn down before a machine leaves the IPv4-leased states |
| InterfaceLemmas.TickKeepsIpv6HeldIff | source/WanManager/wanmgr_interface_sm.c:1384-1392 | The IPv6 twin survives a tick if and only if the tick neither takes the tunnel transition nor finds both leases dropped while IPv6 is up |
| InterfaceLemmas.BothLeasesDroppedStrandsIpv6 | source/WanManager/wanmgr_interface_sm.c:1616-1655 | The failing family: two expiry messages in one dual-stack tick leave the machine obtaining addresses with `ipv6_connection_state` still up |
| InterfaceLemmas.TickEndsWithLeaseAgreeingIff | source/WanManager/wanmgr_interface_sm.c:1538-1655 | A tick ends with the leased state agreeing with the address status if and only if it does not take the tunnel transition from an IPv6-only lease |
| InterfaceLemmas.TickEmptiesBoxes | source/WanManager/wanmgr_interface_sm.c:1780-1800 | Both mailboxes are empty before the state function runs and at the end of the tick, so the mailbox part of WanManager_ClearDHCPData never discards a message |
| InterfaceLemmas.LinkDownTickDescends | source/WanManager/wanmgr_interface_sm.c:1336-1392 | With the link down each tick lowers the rank; the connection-state invariant rules out bouncing between IPV4_LEASED and IPV6_LEASED |
| InterfaceLemmas.TickDisablesExactlyOnExit | source/WanManager/wanmgr_interface_sm.c:1412-1430 | Wan.Status becomes DISABLED in exactly the tick that reaches EXIT |
| InterfaceLemmas.StopStep | source/WanManager/wanmgr_interface_sm.c:1435-1754 | What a tick does in each state while one of the four guards holds: leases taken down, in dual stack both, or DECONFIGURING, or EXIT with the link down |
| InterfaceLemmas.StopsIff | source/WanManager/wanmgr_interface_sm.c:1435-1656 | And only then: DECONFIGURING if and only if a guard holds; in the leased states a family is torn down if and only if a guard holds or its lease is lost or changed, both families if and only if a guard holds |
| InterfaceLemmas.StopTickDescends | source/WanManager/wanmgr_interface_sm.c:1435-1754 | While a guard holds each tick lowers the rank to DECONFIGURING |
| InterfaceProgress.BringUp | source/WanManager/wanmgr_interface_sm.c:1435-1487 | With the guards satisfied and the link up, two ticks lead from configuring through VALIDATING to obtaining addresses with Wan.Status UP and no lease left |
| InterfaceProgress.NotUpYet | source/WanManager/wanmgr_interface_sm.c:1435-1487 | A link that is still configuring keeps a machine there, or sends it back from validating |
| InterfaceProgress.StartsClean | source/WanManager/wanmgr_interface_sm.c:921-957 | A start leaves no family and no tunnel up, whatever was in the record, and the link CONFIGURING, so that of the guards only three can stop it at once |
| InterfaceProgress.EndsClean | source/WanManager/wanmgr_interface_sm.c:1412-1430 | The last two ticks leave a record that is disabled, not active, asks for no refresh, and has neither name, lease nor message |
| InterfaceProgress.RefreshBegins | source/WanManager/wanmgr_interface_sm.c:1489-1508 | A refresh request, or a link that went back to CONFIGURING, starts a refresh; the request is lowered by the tick that takes the link back |
| InterfaceProgress.RefreshEnds | source/WanManager/wanmgr_interface_sm.c:1691-1720 | The refresh waits for the link, then obtains addresses with no lease left, or starts again if requested |
| InterfaceProgress.SettlesInThreeTicks | source/WanManager/wanmgr_interface_sm.c:1489-1656 | Undisturbed, from any mix of lost and new leases, the machine reaches the state that names its leases with exactly those configured, after at most three ticks, and stays there |
| InterfaceProgress.SettleTick | source/WanManager/wanmgr_interface_sm.c:1163-1382 | Each such tick does exactly one of the things left to do, and neither gains nor loses a lease |
| InterfaceProgress.Ipv6ConfiguredIff | source/WanManager/wanmgr_interface_sm.c:1489-1576 | A new IPv6 lease is configured if and only if the LAN bridge is ready, the lease was announced before, and IPv4 does not go first |
| InterfaceProgress.Ipv4ConfiguredIff | source/WanManager/wanmgr_interface_sm.c:1163-1227 | A new IPv4 lease puts `ipv4_connection_state` up if and only if its broadcast address is known |
| InterfaceLemmas.RenewalTearsDownIff | source/WanManager/wanmgr_interface_sm.c:1547-1555 | In IPV4_LEASED an address-assigned message tears IPv4 down in the same tick if and only if ip, mask, gateway or a DNS server differs from the stored lease |
| InterfaceLemmas.RenewalsNeverTearDown | source/WanManager/wanmgr_dhcpv4_apis.c:74-181 | Any number of identical renewals, with any IPv6 messages and link changes that keep the guards, never takes IPv4 down |
| InterfaceLemmas.ChangedLeaseConfiguredIff | source/WanManager/wanmgr_dhcpv4_apis.c:108-181 | For an address-assigned message with another lease, link up and no refresh, in every state: the tick configures the new lease if and only if the machine obtains addresses, or is in IPV6_LEASED with IPv6 neither lost nor changed; IPV4_LEASED tears IPv4 down; dual stack stores the lease with the change left pending |
| InterfaceLemmas.DualStackKeepsPending | source/WanManager/wanmgr_interface_sm.c:1616-1655 | In DUAL_STACK_ACTIVE no tick configures a pending lease; the state is kept if and only if IPv6 is up and no tunnel is wanted |
| InterfaceLemmas.DualStackNeverConfigures | source/WanManager/wanmgr_interface_sm.c:1616-1655 | Over any number of ticks there, however often the new lease is sent again, it stays unconfigured and IPv4 set up as before |
| InterfaceLemmas.PendingIsTornDown | source/WanManager/wanmgr_interface_sm.c:1547-1555 | In IPV4_LEASED a pending lease is torn down by the next tick whatever message it finds |
| InterfaceLemmas.ChangedLeaseNeedsSecondMessage | source/WanManager/wanmgr_dhcpv4_apis.c:108-200 | From IPV4_LEASED without IPv6: without another message the next tick has no IPv4, with the same message again the lease is configured |
| MessageLemmas.Ipv4MessageStored | source/WanManager/wanmgr_dhcpv4_apis.c:91-200 | Field by field what a DHCPv4 message leaves: its lease stored as sent, the change flag raised if and only if one of five fields is new, an expiry without address, anything else nothing |
| MessageLemmas.Ipv6MessageStored | source/WanManager/wanmgr_dhcpv6_apis.c:2418-2605 | Field by field what a connecting DHCPv6 message leaves: every field as sent, the bridge address from the text before the slash and `1/64` in its 48-byte field, the change flag raised if and only if one of five fields is new |
| MessageLemmas.Ipv6MessageForgets | source/WanManager/wanmgr_dhcpv6_apis.c:2362-2508 | An expiry, or a withdrawal of the stored prefix, leaves IPv6 down and the five fields empty; any other message that does not connect changes nothing |
| MessageLemmas.Ipv6RenewalTearsDownIff | source/WanManager/wanmgr_dhcpv6_apis.c:2580-2604 | In IPV6_LEASED a message takes IPv6 down in the same tick if and only if it is an expiry, withdraws the stored prefix, or connects with a lease that differs in one of the five fields |
| MessageLemmas.Ipv6RenewalsNeverTearDown | source/WanManager/wanmgr_dhcpv6_apis.c:2331-2617 | Any number of identical DHCPv6 messages, with any IPv4 traffic, tunnels and platform results around them, never takes IPv6 down, unless the message withdraws its own prefix |
| MessageLemmas.SameMessageTearsDownIff | source/WanManager/wanmgr_dhcpv6_apis.c:2495-2508 | That exception is exact: repeated in IPV6_LEASED, the message that brought the lease takes it down if and only if it withdraws its own prefix |
| InterfaceMachine.Controller.HandleIpv4Event | source/WanManager/wanmgr_dhcpv4_apis.c:91-200 | One DHCPv4 message: change flag by the five-field comparison, stored lease, status, expiry, and the slot emptied on every path |
| InterfaceMachine.Controller.HandleIpv6Event | source/WanManager/wanmgr_dhcpv6_apis.c:2331-2617 | One DHCPv6 message: expiry, address command, prefix added or withdrawn, bridge address, change flag, and the slot emptied on every path |
| InterfaceMachine.Controller.Begin | source/WanManager/wanmgr_interface_sm.c:1832-1851 | The start of the thread under the lock, with the lock given back |
| InterfaceMachine.Controller.RunTick | source/WanManager/wanmgr_interface_sm.c:1853-1951 | One loop iteration changes record, sysevents and state as the specification of a tick says, empties both mailboxes, and leaves both locks as found, the interface lock never deeper than two and never requested under the configuration lock |
| WanDatabase.Database.GetIfaceLocked | source/WanManager/wanmgr_data.c:111-129 | A record if and only if the index is in the table, and the lock held exactly then |
| WanDatabase.Database.GetIfaceByNameLocked | source/WanManager/wanmgr_data.c:131-155 | The first record of that name if there is one, and the lock held exactly then |
| PolicySpec.BestIsChoice | source/WanManager/wanmgr_policy_pp_impl.c:64-132 | The one-kind scan finds the first candidate of least priority, or that there is none |
| PolicySpec.ChoiceIsUnique | source/WanManager/wanmgr_policy_pp_impl.c:64-132 | There is only one such choice |
| PolicySpec.TickKeepsActiveLink | source/WanManager/wanmgr_policy_pp_impl.c:192-667 | Every policy tick keeps the indices in the table, the active flag on the active interface only, and the rest of the table as it was |
| PolicySpec.SelectIgnoresLinks | source/WanManager/wanmgr_policy_pp_impl.c:64-132 | Selection does not depend on the active flags |
| PolicySpec.TickSelectsBest | source/WanManager/wanmgr_policy_pp_impl.c:479-613 | What the active index is after a tick without standby, in terms of the two argmin specifications |
| PolicySpec.TickStartsOnlyWhenAllDown | source/WanManager/wanmgr_policy_pp_impl.c:134-173 | Without standby a tick starts a machine only from INTERFACE_DOWN with every interface disabled, and only the one it makes active |
| PolicySpec.TickStartsWhenAllDown | source/WanManager/wanmgr_policy_pp_impl.c:479-515 | Conversely an eligible interface is then started at once |
| PolicySpec.StillSelectedStays | source/WanManager/wanmgr_policy_pp_impl.c:537-613 | A tick leaves a selection that still stands exactly as it is |
| PolicySpec.DeselectedIff | source/WanManager/wanmgr_policy_pp_impl.c:517-613 | From an active state a tick without standby clears the active index and every active flag if and only if WAN is disabled or the active interface no longer fits its role or is no longer the first of least priority; else index and state stay |
| PolicySpec.TickKeepsDownCleared | source/WanManager/wanmgr_policy_pp_impl.c:192-667 | Every tick keeps that INTERFACE_DOWN means no active index and no active flag |
| PolicySpec.SecondaryWinnerStaysIff | source/WanManager/wanmgr_policy_pp_impl.c:565-613 | A secondary winner is kept by the next tick if and only if its type is SECONDARY |
| PolicyStandby.StandbyDown | source/WanManager/wanmgr_policy_pp_impl.c:479-515 | With standby, INTERFACE_DOWN: the best primary takes over and its machine is started, else the best of the others, without waiting for running machines; nothing without either |
| PolicyStandby.StandbyPrimary | source/WanManager/wanmgr_policy_pp_impl.c:517-563 | With standby, PRIMARY_WAN_ACTIVE: given up if and only if it does not fit or is not the best; else the machine of a new best secondary is started if and only if it is ready, and the index forgotten if not |
| PolicyStandby.StandbySecondary | source/WanManager/wanmgr_policy_pp_impl.c:565-613 | With standby, SECONDARY_WAN_ACTIVE: given up if and only if it does not fit or is not the best; an eligible primary takes over at once and its machine is started |
| PolicyStandby.StandbyFallsBack | source/WanManager/wanmgr_policy_pp_impl.c:615-645 | With both up, a primary that does not fit hands over to the secondary, whose machine is started |
| PolicyStandby.StandbyChanges | source/WanManager/wanmgr_policy_pp_impl.c:285-340 | With both up, a primary that is not the best hands over to the best, whose machine is started, or to none |
| PolicyStandby.StandbyBoth | source/WanManager/wanmgr_policy_pp_impl.c:420-477 | With both up and the primary staying: a new best secondary is started if and only if it is ready, else the state falls back to PRIMARY_WAN_ACTIVE |
| PolicyController.Controller.ScanTable | source/WanManager/wanmgr_policy_pp_impl.c:83-131 | The single scan that tracks both kinds computes the same two choices as two separate scans, for any table |
| PolicyController.Controller.CheckAllIfacesDown | source/WanManager/wanmgr_policy_pp_impl.c:134-173 | True if and only if every Wan.Status is DISABLED |
| PolicyController.Controller.RunTick | source/WanManager/wanmgr_policy_pp_impl.c:702-754 | One loop iteration is the specified tick, and leaves both locks as found, the interface lock never deeper than two and never requested under the configuration lock |
| Mailbox.StepConserves | source/WanManager/wanmgr_interface_sm.c:1780-1800 | For one interface and family, each step of the system turns pending plus accepted into handled plus pending |
| Mailbox.MessagesConserved | source/WanManager/wanmgr_ipc.c:73-152 | In every run, with or without standby: the accepted messages of a mailbox, in order, are those handled, each once, followed by at most one pending; nothing is overwritten or discarded |
| Mailbox.Producer.TryDeliver | source/WanManager/wanmgr_ipc.c:80-98 | An attempt succeeds if and only if the named interface exists with an empty slot, fills that slot and no other, and gives the lock back |
| Mailbox.Producer.NewMsg | source/WanManager/wanmgr_ipc.c:73-111 | At most five attempts; success exactly when the last found the slot empty and no earlier one did, failure only after five |
| Mailbox.OfferIsStep | source/WanManager/wanmgr_ipc.c:114-152 | A delivery attempt is the corresponding step of the transition system |
| SentOptions.Table.Add | source/WanManager/wanmgr_dhcpv6_apis.c:1163-1197 | The three representations agree before and after; the list gains the option at the end |
| SentOptions.Table.Delete | source/WanManager/wanmgr_dhcpv6_apis.c:1200-1261 | They agree before and after; the list loses the first option of that number and keeps the order; the entry of the old last option stays in syscfg |
| SentOptions.Table.Set | source/WanManager/wanmgr_dhcpv6_apis.c:1264-1338 | They agree before and after; the first option of that number is replaced, if there is one |
| SentOptions.Table.SetValues | source/WanManager/wanmgr_dhcpv6_apis.c:1096-1127 | They agree before and after a change of number and alias, without rewriting the file |
| SentOptions.Perform | source/WanManager/wanmgr_dhcpv6_apis.c:1096-1338 | After any sequence of Add, Delete, Set and value changes entry k + 1 of syscfg is slot k of the array in all five fields, the stored count is right, the file is the rendering of the enabled options and reads back as them if and only if no value holds a line end, and the list is what the operations make of the old one |
| SentOptions.DisabledNeedsNoRewrite | source/WanManager/wanmgr_dhcpv6_apis.c:1189-1194 | Adding or removing a disabled option leaves the file right |
| SentOptions.RenamingNeedsNoRewrite | source/WanManager/wanmgr_dhcpv6_apis.c:1325-1331 | Changing only number or alias leaves the file right |
| SentOptions.FileReadsIff | source/WanManager/wanmgr_dhcpv6_apis.c:972-993 | Reading the file line by line, a number, a number and the rest between colons, gives tag, half the length and value of exactly the enabled options in order, if and only if no value holds a line end |
| SentOptions.Table.Restart | source/WanManager/wanmgr_dhcpv6_apis.c:944-1067 | After a restart the options read back from syscfg have the instance number as tag, and so has the file; array, syscfg and file agree if and only if every tag was the instance number |
| SentOptions.ReadBackIff | source/WanManager/wanmgr_dhcpv6_apis.c:1046-1053 | The list read back is the one written, and agrees with its entries, if and only if every tag is the instance number |
| Dhcpv4Registry.PushByInsNum | source/TR-181/middle_layer_src/wanmgr_rdkbus_apis.c:1437-1473 | The entry goes before the first one with a larger instance number |
| Dhcpv4Registry.Dhcpv4Data.Save | source/WanManager/wanmgr_dhcpv4_internal.c:1265-1773 | The registry becomes the folder tree of the table |
| Dhcpv4Registry.Dhcpv4Data.Load | source/WanManager/wanmgr_dhcpv4_internal.c:626-1238 | The table becomes what the registry says on top of what it held; failure exactly without a client folder |
| Dhcpv4Registry.LoadAfterSave | source/WanManager/wanmgr_dhcpv4_internal.c:1265-1773 | Loading a saved tree into an empty one yields exactly the pruned tree |
| Dhcpv4Registry.PendingSurvivesCycles | source/WanManager/wanmgr_dhcpv4_internal.c:1416-1535 | Every client that is pending or has a pending option survives any number of save and load cycles with its pending options |
| Dhcpv4Registry.CycleIsIdentityIff | source/WanManager/wanmgr_dhcpv4_internal.c:1416-1535 | One cycle changes nothing if and only if every client is saved, has only pending options, and maxima only beside non-empty lists and within 32 bits |
| Dhcpv4Registry.ThreeCyclesSettle | source/WanManager/wanmgr_dhcpv4_internal.c:626-1773 | From the third cycle on the tree is exactly the clients with something pending, with what is pending in them |
| Dhcpv4Registry.TwoCyclesSettleIff | source/WanManager/wanmgr_dhcpv4_internal.c:1416-1535 | Two cycles are enough if and only if no client without anything pending has a non-empty list whose maximum is not zero in its 32-bit record |
| Dhcpv4Registry.TwoCyclesDoNotSettle | source/WanManager/wanmgr_dhcpv4_internal.c:1416-1535 | A tree that still changes in its third cycle |
| RegistryLayout.ClientIsAt | source/WanManager/wanmgr_dhcpv4_internal.c:1416-1490 | A save puts a client at Client/<number> if and only if it is pending or has an option or a maximum, with records Alias and bNew |
| RegistryLayout.OptionsAreAt | source/WanManager/wanmgr_dhcpv4_internal.c:1490-1740 | Below it, under ReqOption and SentOption, the list folders with NextInstanceNumber in 32 bits if and only if the list is not empty, and in them a folder for each pending option and no other |
| RegistryLayout.NoOtherClients | source/WanManager/wanmgr_dhcpv4_internal.c:1376-1404 | The folder Client records the largest number and has sub-folders for clients of the table only |
| RegistryLayout.LoadAddsSaved | source/WanManager/wanmgr_dhcpv4_internal.c:626-1238 | Loading on top of a table keeps all its clients and adds those of the saved tree |
| RegistryLayout.MissingRecords | source/WanManager/wanmgr_dhcpv4_internal.c:780-830 | What missing records and folders read as |
| GlobalAddress.AssignGlobalIp | source/WanManager/wanmgr_dhcpv6_apis.c:1492-1601 | Return code if and only if the guards hold and a MAC is there; the text assembled in the buffer, for every prefix and MAC text that fits it |
| GlobalAddressLemmas.AssignedAddress | source/WanManager/wanmgr_dhcpv6_apis.c:1492-1601 | From end to end: at most four groups, "::", a slash and a length are accepted exactly up to 64, and the text handed out reads (section 2.2 of RFC 4291) as the 128-bit address whose upper half is the prefix and whose lower half is the modified EUI-64 of the MAC (Appendix A) |
| GlobalAddressLemmas.AssignedReads | source/WanManager/wanmgr_dhcpv6_apis.c:1492-1601 | For every accepted prefix text whatever, what the text handed out reads as; and where the prefix is an address itself, when it comes out as the upper half |
| GlobalAddressLemmas.AssembledReads | source/WanManager/wanmgr_dhcpv6_apis.c:1533-1597 | For every text: the upper half that the kept part begins, followed by the identifier; no address exactly where the kept part does not end in a colon after groups that leave room |
| GlobalAddressLemmas.AssembledIsRightIff | source/WanManager/wanmgr_dhcpv6_apis.c:1528-1545 | For every text that passes the guard and is an address: the result is its upper half and the identifier if and only if it ends in "::" after at most four groups, or three colons stand before its last two characters and only zero groups and one digit follow an inner "::" |
| GlobalAddressLemmas.AssembledParsesIff | source/WanManager/wanmgr_dhcpv6_apis.c:1528-1545 | For groups without an inner "::" ending in two colons, one colon or a one-digit group: what the result reads as; an address for two colons after at most four groups, and for five groups, of which the last is lost; none otherwise |
| GlobalAddressLemmas.AcceptsIff | source/WanManager/wanmgr_dhcpv6_apis.c:1508-1531 | What the guards really ask of a text with a slash: length at most 64 and a colon in one of the last two places |
| GlobalAddress.AssembledAddress | source/WanManager/wanmgr_dhcpv6_apis.c:1533-1597 | The same as the end-to-end result for the parts, with the prefix text read on its own |
| GlobalAddress.SecondPartIsJoin | source/WanManager/wanmgr_dhcpv6_apis.c:1563-1593 | Flipping one digit, inserting FF:FE and regrouping the digits spells the interface identifier in four groups |
| GlobalAddress.HexDigits | source/WanManager/wanmgr_dhcpv6_apis.c:1563-1573 | The k-th of the sixteen digits is worth k, small and capital alike, and is printed as the capital one |
| GlobalAddress.FlipTurnsOneBit | source/WanManager/wanmgr_dhcpv6_apis.c:1568-1568 | The exclusive-or turns over the bit worth two and no other |
| Ipv4List.SetIpaddr | source/WanManager/wanmgr_dhcpv4_internal.c:1836-1907 | Accepted if and only if there are fewer commas than entries, every piece before a comma is an address, and the rest is an address of at least seven characters or at most one character; the text is restored; the output is written only on acceptance |
| Ipv4List.GetIpaddrString | source/WanManager/wanmgr_dhcpv4_internal.c:1909-1949 | TRUE if and only if the digits of the leading non-zero addresses, four more characters each, leave more than 15 of the length; with the length asked for on failure, if and only if a zero entry ends the list or a full table has at least fifteen digits fewer than twelve an entry; the text printed |
| Ipv4List.RetryFitsIff | source/WanManager/wanmgr_dhcpv4_internal.c:1941-1946 | The arithmetic of that condition |
| Ipv4List.ParseOfPrintedIff | source/WanManager/wanmgr_dhcpv4_internal.c:1836-1949 | A printed list is accepted if and only if it does not contain 255.255.255.255, and then parses to the leading non-zero addresses padded with zeroes |
| Ipv4List.PrintAndParse | source/WanManager/wanmgr_dhcpv4_internal.c:1836-1949 | Printing into a buffer and parsing that buffer: gives the addresses back if and only if they fitted and 255.255.255.255 is not among them, else writes nothing |
| Ipv4List.AddrOfNtoa | source/WanManager/wanmgr_dhcpv4_internal.c:1925-1934 | Reading a printed address gives it back |
| PrefixAllocation.Calc | source/WanManager/wanmgr_dhcpv6_apis.c:1604-1627 | Fails exactly on a malformed prefix; byte 7 grows by the index modulo 256, no other byte changes |
| PrefixAllocation.Allocator.GenIPv6Prefix | source/WanManager/wanmgr_dhcpv6_apis.c:1628-1668 | The index used and stored, the counter, the result, and no change on failure |
| PrefixAllocation.RunListed | source/WanManager/wanmgr_dhcpv6_apis.c:1628-1668 | After any calls the stored indices are exactly 4, 5, 6 … in the order of the first successful call of each name |
| PrefixAllocation.IndexIsStable | source/WanManager/wanmgr_dhcpv6_apis.c:1640-1661 | A name keeps its index over any further calls |
| PrefixAllocation.ReturnedIs | source/WanManager/wanmgr_dhcpv6_apis.c:1628-1668 | After any calls a call for the k-th name, first or repeated, returns the prefix with byte 7 equal to (g[7] + 4 + k) modulo 256 and all other bytes as in g |
| PrefixAllocation.RepeatedCallsAgree | source/WanManager/wanmgr_dhcpv6_apis.c:1640-1663 | A name that has been served is answered alike ever after, whatever calls come between |
| PrefixAllocation.MalformedReturnsNone | source/WanManager/wanmgr_dhcpv6_apis.c:1613-1617 | A malformed prefix gets no answer and takes no number |
| PrefixAllocation.DisjointIff | source/WanManager/wanmgr_dhcpv6_apis.c:1618-1661 | The prefixes returned to different names lie in different /64s, none of them reserved, if and only if at most 252 names have been served |
| MapT.CalculateMAPTPsid | source/WanManager/wanmgr_net_utils.c:669-717 | Error exactly if the delegated prefix is no longer than the rule prefix; else both values are bit fields counted from the byte boundary at or below the rule prefix length, in the one-byte and the two-byte branch |
| MapT.GetBitsIsField | source/WanManager/wanmgr_net_utils.c:418-421 | Shift and mask pick exactly the named bits |
| MapT.PartsAreEmbeddedAddress | source/WanManager/wanmgr_net_utils.c:692-711 | For a rule prefix length divisible by 8, ipv4Index * 2^psidLen + psid is the embedded address (section 5.2 of RFC 7597), each part below its power of two |
| MapT.RightForAllPrefixesIff | source/WanManager/wanmgr_net_utils.c:699-711 | This holds for every delegated prefix if and only if the rule prefix length is divisible by 8 |
| MapT.SharedAddressIff | source/WanManager/wanmgr_net_utils.c:550-562 | For a rule prefix with zero host bits the shared IPv4 address is its prefix bits followed by the suffix (section 5.2 of RFC 7597) if and only if last byte plus suffix is below 255, for any prefix length; from there on it is 255 too low |
| ParseArgs.ParseArgs | source/WanManager/wanmgr_utils.c:57-148 | The vector is the base name, the maximal space-free words in order and the terminator; its size is what the first loop counted |
| ParseArgs.ArgvFits | source/WanManager/wanmgr_utils.c:63-77 | The slots filled never exceed those counted, although the first loop drops its flag on repeated spaces |
| ParseArgs.StartedIsWords | source/WanManager/wanmgr_utils.c:110-143 | Scanning by position finds exactly the non-empty pieces between spaces |
| ParseArgs.BaseNameByScan | source/WanManager/wanmgr_utils.c:85-94 | The part after the last slash is the last piece between slashes |

## Left out

- Foreign effects: shell commands, routes, sysctl, DNS files, LEDs, firewall restarts, MAP-T and DS-Lite set-up. The results the code branches on are the parameters `broadcastOk`, `lanReady` and `globalAddr`; the two connection-state sysevents are read back as last written and start as down.
- One tick is one atomic step. In the original the policy gives the lock back between the interfaces of a scan, so records may change during it.
- The environment changes configuration, Phy.Status, LinkStatus, Refresh and names between ticks and delivers messages; it does not write Wan.Status, ActiveLink or the address state.
- Build options FEATURE_MAPT and FEATURE_IPOE_HEALTH_CHECK are off in the message handler: MAP-T and DS-Lite status change from outside only.
- The IPoE health check, PPP session creation and the IPCP handler that also fills a mailbox, the sysevent handler thread and the wan-status event.
- The interface table keeps its size; locking and memory allocation succeed. Failure of thread creation is modelled.
- The other selection policies, the DHCPv6 registry (a smaller copy of the DHCPv4 one), bus and TR-181 access.
- Fixed-size text fields: only the bridge address is cut to its field; other texts are kept whole.
- WanSystem.Ipv6HeldInQuietRuns: holds only on runs without the two excluded kinds of tick; `WanSystem.StepKeepsIpv6HolderIff` shows that each of them breaks it, and `WanRuns.StrandedRun` reaches one.
- WanSystem.FailoverFollows: environment steps between the two policy ticks are not considered; those that make the interface ineligible can postpone the start.
- WanSystem.LinkDownStopsWithinFiveTicks: the rank counts ticks of that thread; how often it is scheduled is not modelled.
- SentOptions.Table.Add: a failing realloc, a file that cannot be opened and the restart of the client process are left out; syscfg keys are a datatype instead of assembled texts.
- SentOptions.Table.Restart: all five keys of an entry are there; the caller's renumbering of options with instance number zero is left out.
- InterfaceProgress.SettlesInThreeTicks: without messages, tunnels and platform failures, and not from a dual stack that lost both leases; those cases have the theorems above.
- WanStops.GuardedMachineStops: `ipv6_connection_state` is claimed only if no earlier tick stranded it, by `WanSystem.StepKeepsIpv6HolderIff`.
- MessageLemmas.Ipv6RenewalsNeverTearDown: false for a message that withdraws its own prefix; `MessageLemmas.SameMessageTearsDownIff` gives the exact condition.
- Dhcpv4Registry.Dhcpv4Data.Load: a missing alias reads as empty, a record of another type as missing; instance numbers are unbounded naturals. Linked lists and folder handles are sequences and values, so aliasing of folder handles is not modelled.
- GlobalAddress.AssignGlobalIp: a text without two characters before the slash at the guard, or too long for the 64-byte buffer with the digits of the MAC added, is outside its precondition, since the original then indexes outside the buffer; a text without a slash is an error, as intended there. Blanks and signs that atoi skips before the length are not modelled.
- Ipv4List.SetIpaddr: a table of more than four entries overruns the local array of the original and is outside the precondition.
- Ipv4List.GetIpaddrString: the original finds the end of its text by the zeroes of a cleared buffer, and looks one character past the buffer when a list fills it exactly; such calls are outside the precondition. It reads one entry past the table before testing the bound; the model tests the bound first.
- Ipv4List.AddrOfNtoa: inet_addr is a parameter of the parser; the concrete `InetAddr` of the round trip takes four decimal parts, not the octal, hexadecimal and short forms.
- PrefixAllocation.Calc: addresses are sixteen bytes; the text conversions inet_pton and inet_ntop, the "/64" suffix and overflow of the counter are left out.
- MapT.CalculateMAPTPsid: lengths for which the original shifts by an undefined amount (more than 16 embedded bits, an IPv4 suffix longer than they are), or beyond 128 bits, are outside the precondition; a prefix that inet_pton rejects is any sixteen bytes.
- ParseArgs.ParseArgs: memory allocation succeeds.
