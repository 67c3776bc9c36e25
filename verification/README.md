# Verification models for the Yoga Slim 7x USB4 tree

Dafny 4.11 models of the parts of this repository that hold hard state, with
proofs of what they promise. Check everything with

    dafny verify dfyconfig.toml

| file | models |
|---|---|
| LpiRanges.dfy, DeviceLpis.dfy | the two levels of LPI allocation in the ITS driver |
| CommandQueue.dfy | the ITS command queue and the wait for its read index |
| VlpiMapping.dfy | forwarding of interrupts to VMs with lazy VMAPP |
| VpeProxy.dfy | the round-robin doorbell proxy of GICv4.0 vPEs |
| LpiAffinity.dfy | per-CPU LPI counters and the choice of a target CPU |
| TopologyWalk.dfy | route strings and the port walk through a router tree |
| DmaCredits.dfy | buffer credits of DMA tunnels |
| DpBandwidth.dfy | the DP bandwidth ledger with group reservations |
| StorageService.dfy | the USB4 storage service against an arbitrary kernel |
| ImsiPolicy.dfy, ImsiReceiver.dfy | the iMSI receiver lifecycle and its two policies |
| Firmware.dfy | the firmware record loader and its read-back |
| CapabilityWalk.dfy | the root port's header and capability check |
| Options.dfy | the option type the others share |

Code that changes state is modelled by classes and loops and proved against
functions on values; the laws are stated about those functions and over whole
runs. Hardware, the kernel below the service and memory allocation answer
arbitrarily, as parameters or unconstrained choices. Commands to the ITS carry
preconditions, or count how often they are not met (MAPTI on an unmapped event,
DISCARD, MOVI, VMOVI, INV on a mapped one): that the drivers meet them is part
of what is proved.

Where a law does not hold of the code, the model keeps the code and states when
it holds:

- The proxy array and the proxy device differ in size exactly on a single CPU
  (`VpeProxy.SizesAgree`, `VpeProxy.RoundUpPow2`), and then the index leaves the
  array (`VpeProxy.IndexStaysInside`, `VpeProxy.SingleCpuLeavesTheArray`).
- Available DMA credits are computed with an unsigned division that wraps when
  an adapter has fewer buffers than USB 3.x, PCIe and the spare need
  (`DmaCredits.PromiseFitsExactlyWhenRoomy`, `DmaCredits.TightExample`).
- A request for the maximum as changed by rounding can drive a group's
  reservation below zero (`DpBandwidth.RequestIsSafe`,
  `DpBandwidth.OnlyRoundedMaximum`, `DpBandwidth.RoundedMaximumExample`), a
  shrinking request whose write fails can over-promise a link
  (`DpBandwidth.UnwrittenShrink`, `DpBandwidth.UnwrittenShrinkExample`), and an
  offer of zero does not limit a new tunnel (`DpBandwidth.EstablishedFits`,
  `DpBandwidth.NoOfferExample`).
- A block of LPIs is lost when a list node or a bitmap cannot be allocated; the
  partition of `LpiRanges.RunKeepsPartition` counts it as lost, and the initial
  list comes back exactly when there is none (`LpiRanges.RunRestores`).
- Activation and deactivation do not look whether a pair is mapped or forwarded
  (`VlpiMapping.Vlpis.Activate`, `VlpiMapping.Vlpis.Deactivate`).
- The wait for the command queue is exact only while the ITS moves less than a
  lap between two polls (`CommandQueue.LinearRefines`,
  `CommandQueue.FullLapIsMissed`).

## Model

| member | source | states |
|---|---|---|
| LpiRanges.CanonicalIsUnique | snapshot/kernel/drivers/irqchip/irq-gic-v3-its.c:2105-2122 | two sorted, disjoint, fully coalesced lists with the same numbers are the same list: the free list is a canonical form of its set |
| LpiRanges.FreeList.Init | snapshot/kernel/drivers/irqchip/irq-gic-v3-its.c:2198-2219 | the list starts as one node over all LPIs the identifier space, or a hypervisor, leaves; without a node it stays empty and the call fails |
| LpiRanges.FreeList.AllocRange | snapshot/kernel/drivers/irqchip/irq-gic-v3-its.c:2124-2151 | returns the lowest run of free numbers that fits and takes exactly it out; fails exactly when no run of that length is free; the list stays canonical |
| LpiRanges.FreeList.FreeRange | snapshot/kernel/drivers/irqchip/irq-gic-v3-its.c:2165-2196 | gives exactly the block back and leaves a canonical list, or changes nothing when no node can be allocated |
| LpiRanges.MergedCovers | snapshot/kernel/drivers/irqchip/irq-gic-v3-its.c:2153-2163 | merging two neighbours neither adds nor loses a number |
| LpiRanges.RunKeepsPartition | snapshot/kernel/drivers/irqchip/irq-gic-v3-its.c:2105-2196 | in every state of every run of allocations and frees, free, live and lost blocks are disjoint and together are the initial interval |
| LpiRanges.LiveBlockCanBeFreed | snapshot/kernel/drivers/irqchip/irq-gic-v3-its.c:2165-2196 | every live block of a run meets what freeing demands, so no run gets stuck |
| LpiRanges.RunRestores | snapshot/kernel/drivers/irqchip/irq-gic-v3-its.c:2105-2219 | in every run the list is the single initial node exactly when every block is back, in any order, and none was lost |
| DeviceLpis.LpiAlloc | snapshot/kernel/drivers/irqchip/irq-gic-v3-its.c:2221-2251 | grants the largest size of n, n/2, n/4, ... that any free run can hold, at its lowest place; otherwise no such size fits; says when a block is lost for want of a bitmap |
| DeviceLpis.FindFreeRegion | snapshot/kernel/drivers/irqchip/irq-gic-v3-its.c:3555-3569 | the first clear region aligned to its size, and none if there is none |
| DeviceLpis.LpiDomain.CreateDevice | snapshot/kernel/drivers/irqchip/irq-gic-v3-its.c:3465-3541 | the request is a power of two within the event IDs of the ITS; a new device gets a block apart from all others and within its ITT, a device without LPIs takes none, and a failure changes no device |
| DeviceLpis.LpiDomain.AllocIrqs | snapshot/kernel/drivers/irqchip/irq-gic-v3-its.c:3555-3569 | the vectors handed out belong to no other grant of any device; refusal means no aligned region is free |
| DeviceLpis.LpiDomain.FreeIrqs | snapshot/kernel/drivers/irqchip/irq-gic-v3-its.c:3752-3771 | returns exactly the region of one grant and keeps all others |
| DeviceLpis.LpiDomain.Teardown | snapshot/kernel/drivers/irqchip/irq-gic-v3-its.c:3630-3652 | a device goes exactly when it is not shared and has no LPI in use, and its whole block returns to the free list |
| DeviceLpis.NoSharedHwirq | snapshot/kernel/drivers/irqchip/irq-gic-v3-its.c:2221-2257 | through both allocation levels no interrupt number belongs to two grants |
| DeviceLpis.EventIdInverts | snapshot/kernel/drivers/irqchip/irq-gic-v3-its.c:327-331 | the event number computed with 32-bit subtraction inverts base plus event for every number of the device |
| CommandQueue.ItsQueue.QueueFull | snapshot/kernel/drivers/irqchip/irq-gic-v3-its.c:1103-1116 | full exactly when N - 1 commands are outstanding, whatever the ITS consumed meanwhile |
| CommandQueue.ItsQueue.AllocateEntry | snapshot/kernel/drivers/irqchip/irq-gic-v3-its.c:1118-1146 | the slot handed out holds no command the ITS has yet to fetch; refused only when the queue stayed full and the ITS consumed nothing all the time |
| CommandQueue.ItsQueue.PostCommands | snapshot/kernel/drivers/irqchip/irq-gic-v3-its.c:1148-1155 | everything built so far becomes visible, in order |
| CommandQueue.ItsQueue.SendCommand | snapshot/kernel/drivers/irqchip/irq-gic-v3-its.c:1215-1251 | appends the command, and its sync when a second slot is there, and leaves a read sample from which the wait is less than one lap |
| CommandQueue.ItsQueue.PostAll | snapshot/kernel/drivers/irqchip/irq-gic-v3-its.c:1097-1251 | for any sequence of lock holders the ITS executes a prefix of what they built, in the order they held the lock, and at most N - 1 entries are outstanding |
| CommandQueue.WaitForRange | snapshot/kernel/drivers/irqchip/irq-gic-v3-its.c:1169-1212 | succeeds at the first poll at which the linearised index reaches the target, and otherwise polls to the end |
| CommandQueue.LinearRefines | snapshot/kernel/drivers/irqchip/irq-gic-v3-its.c:1169-1212 | the linearised index never runs ahead of the true, unbounded position of the ITS, and equals it exactly while the ITS moves less than one lap between polls |
| CommandQueue.WaitIsSound | snapshot/kernel/drivers/irqchip/irq-gic-v3-its.c:1169-1212 | success means every command below the target was consumed |
| CommandQueue.WaitIsExact | snapshot/kernel/drivers/irqchip/irq-gic-v3-its.c:1169-1212 | without a full lap between polls the wait succeeds exactly when the ITS has reached the target |
| CommandQueue.FullLapIsMissed | snapshot/kernel/drivers/irqchip/irq-gic-v3-its.c:1169-1212 | with full laps between polls the wait misses commands that were consumed |
| CommandQueue.ItsQueue.SendAndWait | snapshot/kernel/drivers/irqchip/irq-gic-v3-its.c:1215-1251 | while the ITS runs and other CPUs post, success means the ITS has consumed the entries of this very call; giving up means it has not, unless it ran a full lap between two polls |
| CommandQueue.ItsQueue.Wait | snapshot/kernel/drivers/irqchip/irq-gic-v3-its.c:1169-1212 | the same for the polling loop alone |
| VlpiMapping.Vlpis.constructor | snapshot/kernel/drivers/irqchip/irq-gic-v3-its.c:1876-1901 | before anything is forwarded all counts and mappings agree |
| VlpiMapping.Vlpis.SendVmapp | snapshot/kernel/drivers/irqchip/irq-gic-v3-its.c:880-937 | the alloc bit is set exactly on the first ITS to map a vPE and the last to unmap it |
| VlpiMapping.Vlpis.SendVmappAll | snapshot/kernel/drivers/irqchip/irq-gic-v3-its.c:1889-1900 | every vPE of the VM, and no other, changes its mapping on this ITS |
| VlpiMapping.Vlpis.MapVm | snapshot/kernel/drivers/irqchip/irq-gic-v3-its.c:1876-1901 | a vPE is mapped on an ITS exactly while the count of forwarded interrupts of its VM there is positive |
| VlpiMapping.Vlpis.UnmapVm | snapshot/kernel/drivers/irqchip/irq-gic-v3-its.c:1903-1919 | the same when the count goes down |
| VlpiMapping.Vlpis.VlpiMap | snapshot/kernel/drivers/irqchip/irq-gic-v3-its.c:1921-1973 | succeeds exactly when the device is free (and memory is there) or belongs to the same VM; keeps all counts equal to the forwarded events; no command hits a pair or a vPE in the wrong state, so VMAPTI never hits a mapped pair |
| VlpiMapping.Vlpis.VlpiUnmap | snapshot/kernel/drivers/irqchip/irq-gic-v3-its.c:1991-2022 | succeeds exactly for forwarded interrupts, restores the physical translation without a clash, and gives up the VM with its last event |
| VlpiMapping.Vlpis.Activate | snapshot/kernel/drivers/irqchip/irq-gic-v3-its.c:3721-3739 | MAPTI is predictable exactly when the pair is not mapped, and the books stay right exactly when it is not forwarded |
| VlpiMapping.Vlpis.Deactivate | snapshot/kernel/drivers/irqchip/irq-gic-v3-its.c:3741-3750 | DISCARD is predictable exactly when the pair is mapped, and the books stay right exactly when it is not forwarded |
| VpeProxy.Proxy.SlotIsEvent | snapshot/kernel/drivers/irqchip/irq-gic-v3-its.c:3800-3892 | slot e holds vPE v exactly when v names event e; no slot exactly when the vPE is nowhere |
| VpeProxy.Proxy.UnmapLocked | snapshot/kernel/drivers/irqchip/irq-gic-v3-its.c:3800-3824 | frees exactly the slot of the vPE, unmaps its event, and leaves next_victim on a free slot |
| VpeProxy.Proxy.MapLocked | snapshot/kernel/drivers/irqchip/irq-gic-v3-its.c:3841-3862 | refines the round-robin reference: takes the slot at next_victim, evicting at most its holder; MAPTI always targets an unmapped event |
| VpeProxy.Proxy.Unmap | snapshot/kernel/drivers/irqchip/irq-gic-v3-its.c:3826-3839 | only this vPE loses its slot, and only without DirectLPI |
| VpeProxy.Proxy.Move | snapshot/kernel/drivers/irqchip/irq-gic-v3-its.c:3864-3892 | afterwards the ITS routes the vPE doorbell to the new collection; MOVI hits a mapped event |
| VpeProxy.Proxy.SendCmd | snapshot/kernel/drivers/irqchip/irq-gic-v3-its.c:4105-4116 | INV, INT and CLEAR hit a mapped event, and it is this vPE's own doorbell |
| VpeProxy.MappedHolds | snapshot/kernel/drivers/irqchip/irq-gic-v3-its.c:3841-3862 | a mapping gives the vPE a slot and takes one from nobody but the holder at next_victim |
| VpeProxy.KeptUntilItsTurn | snapshot/kernel/drivers/irqchip/irq-gic-v3-its.c:3841-3862 | for every stream of requests a slot keeps its holder until as many requests came as slots were in front of it |
| VpeProxy.FreshEntrySurvives | snapshot/kernel/drivers/irqchip/irq-gic-v3-its.c:3841-3862 | a vPE just mapped survives the next N - 1 requests |
| VpeProxy.SizesAgree | snapshot/kernel/drivers/irqchip/irq-gic-v3-its.c:5188-5202 | past the start-up check the array and the proxy device have the same size exactly when there is more than one slot |
| VpeProxy.IndexStaysInside | snapshot/kernel/drivers/irqchip/irq-gic-v3-its.c:3858 | next_victim stays inside the array from every slot exactly when both sizes agree |
| VpeProxy.RoundUpPow2 | snapshot/kernel/drivers/irqchip/irq-gic-v3-its.c:5188-5188 | the least power of two that is not smaller; one exactly on a single CPU |
| VpeProxy.SingleCpuLeavesTheArray | snapshot/kernel/drivers/irqchip/irq-gic-v3-its.c:5188-5202 | on a single CPU the first use moves next_victim past the only slot |
| LpiAffinity.PickLeastLoaded | snapshot/kernel/drivers/irqchip/irq-gic-v3-its.c:1677-1692 | the first least-loaded CPU of the mask; none exactly when no CPU of the mask is below the start value |
| LpiAffinity.FirstLeastIsUnique | snapshot/kernel/drivers/irqchip/irq-gic-v3-its.c:1677-1692 | that CPU is unique |
| LpiAffinity.ChoicesAreAllowed | snapshot/kernel/drivers/irqchip/irq-gic-v3-its.c:1698-1768 | ordinary interrupts stay on online CPUs and leave their affinity only when none of it is online; a tied ITS never leaves its node; empty exactly in that case |
| LpiAffinity.Lpis.SelectCpu | snapshot/kernel/drivers/irqchip/irq-gic-v3-its.c:1698-1768 | the first least-loaded CPU of the allowed ones, none exactly when they are empty |
| LpiAffinity.Lpis.SetAffinity | snapshot/kernel/drivers/irqchip/irq-gic-v3-its.c:1770-1808 | on every exit each counter equals the active interrupts whose col_map names the CPU; a failure changes nothing; success picks the least loaded without counting the interrupt itself |
| LpiAffinity.Lpis.Activate | snapshot/kernel/drivers/irqchip/irq-gic-v3-its.c:3721-3739 | counters and routing follow the new interrupt, or nothing changes |
| LpiAffinity.Lpis.Deactivate | snapshot/kernel/drivers/irqchip/irq-gic-v3-its.c:3741-3750 | counters and routing lose exactly this interrupt |
| LpiAffinity.StaircaseGrows | snapshot/kernel/drivers/irqchip/irq-gic-v3-its.c:1677-1692 | adding to the first least-loaded CPU keeps the loads a staircase |
| LpiAffinity.Lpis.ActivateEach | snapshot/kernel/drivers/irqchip/irq-gic-v3-its.c:3721-3739 | any activation-only run, with interrupts of both classes in any order, on fixed online CPUs keeps the counts of a class without NUMA nodes within one of each other |
| TopologyWalk.ReachableIffDescendant | snapshot/kernel/drivers/thunderbolt/switch.c:849-854 | the masked route comparison holds exactly for the routers below, and the router itself |
| TopologyWalk.DownstreamRoute | snapshot/kernel/drivers/thunderbolt/tb.h:1257-1261 | a child route is the parent route with the port in the byte at the parent's depth, which is free and fits 64 bits |
| TopologyWalk.PortByteLeadsOn | snapshot/kernel/drivers/thunderbolt/tb.h:588-596 | below a router the port byte names the child that leads on |
| TopologyWalk.StepProgress | snapshot/kernel/drivers/thunderbolt/switch.c:871-908 | every step comes closer to the end, and only the end has no successor |
| TopologyWalk.WalkFollowsTree | snapshot/kernel/drivers/thunderbolt/switch.c:871-908 | the walk terminates at the end port, over real links only, through exactly the routers of the tree path |
| TopologyWalk.RouterPathShape | snapshot/kernel/drivers/thunderbolt/switch.c:857-870 | that path climbs to the lowest common ancestor and then descends |
| TopologyWalk.CommonIsLowest | snapshot/kernel/drivers/thunderbolt/switch.c:857-870 | the turning point is an ancestor of both ends and the lowest such |
| TopologyWalk.WalkIsTreePath | snapshot/kernel/drivers/thunderbolt/tb.h:1145-1147 | with single links the walk visits exactly the ports of the tree path, in order |
| TopologyWalk.TreePathReverses | snapshot/kernel/drivers/thunderbolt/switch.c:871-908 | the tree path read backwards is the tree path of the way back |
| TopologyWalk.WalkBackReverses | snapshot/kernel/drivers/thunderbolt/switch.c:871-908 | with single links the walk back visits the same ports in reverse |
| DmaCredits.ShareWhenRoomy | snapshot/kernel/drivers/thunderbolt/tunnel.c:132-171 | on an adapter with room for USB 3.x, PCIe and the spare, the DMA credits on offer are exactly what those and the DP streams leave, and at least the spare |
| DmaCredits.OverpromisedWhenTight | snapshot/kernel/drivers/thunderbolt/tunnel.c:132-171 | otherwise the unsigned division wraps and more is on offer than there is |
| DmaCredits.PromiseFitsExactlyWhenRoomy | snapshot/kernel/drivers/thunderbolt/tunnel.c:132-171 | the offer leaves USB 3.x and PCIe their share exactly on roomy adapters, or when nothing is on offer |
| DmaCredits.TightExample | snapshot/kernel/drivers/thunderbolt/tunnel.c:132-171 | an adapter on which the offer takes all buffers although USB 3.x and PCIe need more than there are |
| DmaCredits.Domain.Reserve | snapshot/kernel/drivers/thunderbolt/tunnel.c:1776-1805 | takes what it writes into the hop, fails exactly below the minimum, and on a roomy adapter leaves the others their share |
| DmaCredits.Domain.InitRx | snapshot/kernel/drivers/thunderbolt/tunnel.c:1808-1840 | dma_credits grows by exactly what the hops hold, also on a failure half way; on success every hop has at least the minimum and at most what was asked for |
| DmaCredits.Domain.InitTx | snapshot/kernel/drivers/thunderbolt/tunnel.c:1843-1864 | the same for the transmit path |
| DmaCredits.Domain.DestroyPath | snapshot/kernel/drivers/thunderbolt/tunnel.c:1866-1884 | gives back exactly what the hops hold, on adapters with credit allocation only |
| DmaCredits.Domain.AllocDma | snapshot/kernel/drivers/thunderbolt/tunnel.c:1913-1977 | after success or any partial failure dma_credits equals the credits of all live hops; a failure restores it exactly |
| DmaCredits.Domain.Put | snapshot/kernel/drivers/thunderbolt/tunnel.c:213-234 | taking a tunnel down keeps that equality and the share of the others |
| DmaCredits.TunnelRemoved | snapshot/kernel/drivers/thunderbolt/tunnel.c:1886-1895 | what one tunnel held is exactly what the sum over all live tunnels loses |
| DpBandwidth.Manager.ConsumedDp | snapshot/kernel/drivers/thunderbolt/tb.c:673-741 | the bandwidth of all other DP tunnels in the direction, plus each crossing group's reservation exactly once |
| DpBandwidth.Manager.Available | snapshot/kernel/drivers/thunderbolt/tb.c:883-932 | the least that any link of the route has left, never negative |
| DpBandwidth.OfferFits | snapshot/kernel/drivers/thunderbolt/tb.c:883-932 | what is available fits every link of the route beside all it already carries |
| DpBandwidth.RequestIsSafe | snapshot/kernel/drivers/thunderbolt/tb.c:2641-2837 | for every request that is not a failed shrink no link is over-promised; the reservation stays non-negative exactly when a growing request asks for no more than available plus reserved |
| DpBandwidth.GrantedRequest | snapshot/kernel/drivers/thunderbolt/tb.c:2641-2837 | a request is granted exactly when it is within what the tunnel has, or what is available and reserved; bandwidth given up goes to the group to the last Mb/s, and what exceeds the available comes from it |
| DpBandwidth.OnlyRoundedMaximum | snapshot/kernel/drivers/thunderbolt/tb.c:2681-2696 | only the maximum as changed by rounding can violate that |
| DpBandwidth.RoundedMaximumExample | snapshot/kernel/drivers/thunderbolt/tb.c:2805-2813 | such a request that leaves the reservation at -220 |
| DpBandwidth.UnwrittenShrink | snapshot/kernel/drivers/thunderbolt/tb.c:2717-2757 | when the write of a shrinking request fails, a link stays within its capacity exactly when it had room for the reservation |
| DpBandwidth.UnwrittenShrinkExample | snapshot/kernel/drivers/thunderbolt/tb.c:2717-2757 | a sound ledger on which such a request promises 51840 Mb/s of 36000 |
| DpBandwidth.Manager.AllocDp | snapshot/kernel/drivers/thunderbolt/tb.c:2641-2837 | refines the decision on values, failed reads and writes included, and keeps the ledger sound for every regular request |
| DpBandwidth.Manager.ReleaseGroup | snapshot/kernel/drivers/thunderbolt/tb.c:1634-1643 | dropping a reservation keeps the ledger sound |
| DpBandwidth.Manager.Detach | snapshot/kernel/drivers/thunderbolt/tb.c:1778-1794 | a tunnel leaves with its share, and the last of a group with the reservation |
| DpBandwidth.Manager.AttachGroup | snapshot/kernel/drivers/thunderbolt/tb.c:1723-1758 | tunnels between the same routers share a group, others never; none exactly when all seven are taken by others |
| DpBandwidth.Manager.Establish | snapshot/kernel/drivers/thunderbolt/tb.c:2072-2163 | a new tunnel keeps to a non-zero offer and the ledger stays sound; an offer of zero does not limit it; a failure leaves nothing behind |
| DpBandwidth.EstablishedFits | snapshot/kernel/drivers/thunderbolt/tunnel.c:885-890 | beyond the offer a link stays within its capacity exactly when it had the room |
| DpBandwidth.NoOfferExample | snapshot/kernel/drivers/thunderbolt/tunnel.c:885-890 | a full link with nothing on offer, which any further tunnel overruns |
| DpBandwidth.ReduceBandwidth | snapshot/kernel/drivers/thunderbolt/tunnel.c:781-822 | the largest combination of the table that suits both adapters and the limit; none exactly when none does |
| DpBandwidth.Manager.Run | snapshot/kernel/drivers/thunderbolt/tb.c:2641-2837 | over every run of new tunnels, requests, releases and departures, DP allocations plus reservations on every link and direction stay within the guard-banded maximum less the PCIe reserve, and no reservation is negative |
| StorageService.SafeIsJustified | experiments/omarchy1/runtime/usb4_x1d.py:57-64 | in every safe trace the endpoint removal follows an observation by the same action without mounts and with exclusive release, in two rounds in a row when it ejects for sleep; safe phases follow such an eject with all four receipts, full retirement and no disk |
| StorageService.SafeIsPromised | experiments/omarchy1/runtime/usb4_x1d.py:531-585 | a phase that ends the trace has its own eject or power-down right before it |
| StorageService.Service.Prepare | experiments/omarchy1/runtime/usb4_x1d.py:307-318 | a prepared generation is larger than the former one |
| StorageService.Service.RouterEject | experiments/omarchy1/runtime/usb4_x1d.py:362-370 | success appends exactly the complete eject sequence |
| StorageService.Service.RouterRenew | experiments/omarchy1/runtime/usb4_x1d.py:372-373 | a generation is renewed at most once |
| StorageService.Service.RouterIdleRetire | experiments/omarchy1/runtime/usb4_x1d.py:385-402 | success means the store, its receipt and full retirement; false exactly for the two refusals with the state shown unchanged |
| StorageService.Service.Step | experiments/omarchy1/runtime/usb4_x1d.py:438-520 | keeps the trace safe for every answer of the kernel; failed is absorbing; asleep within the grace time nothing happens |
| StorageService.Service.StepConnected | experiments/omarchy1/runtime/usb4_x1d.py:498-512 | a connected drive is ejected exactly when it had been mounted, shows no mount and is released everywhere; otherwise nothing is stored; a failure comes from the release check or after the eject was announced |
| StorageService.Service.ReleaseForSleep | experiments/omarchy1/runtime/usb4_x1d.py:557-585 | success means a complete eject right after two settled rounds in a row; whenever an eject was begun, failed ones included, those two rounds came first; busy leaves the drive connected |
| StorageService.Service.SleepPre | experiments/omarchy1/runtime/usb4_x1d.py:531-555 | ends within a bounded number of rounds of which at most one takes no time; success parks the router; repeated it stores nothing |
| StorageService.Service.SleepRequest | experiments/omarchy1/runtime/usb4_x1d.py:591-614 | pre that succeeds leaves the service asleep and parked; post only wakes it |
| StorageService.Service.EjectNow | experiments/omarchy1/runtime/usb4_x1d.py:616-624 | outside the connected phases, with mounts or without exclusive release nothing is stored; success means a complete eject |
| StorageService.Run | experiments/omarchy1/runtime/usb4_x1d.py:438-624 | every run of calls, for every environment: each removal, safe phase and asleep in the trace has the past it needs, the current phase its own eject right before it, generations grow and are renewed at most once, and failed is absorbing |
| StorageService.RunAsleep | experiments/omarchy1/runtime/usb4_x1d.py:449-454 | from a successful pre until post or the grace time no call stores anything |
| ImsiPolicy.Policy.CheckTarget | experiments/el1-pci0/kernel/drivers/thunderbolt/x1-imsi-policy.c:172-234 | accepts once, and exactly targets whose 8 bytes are outside every bridge window as CPU and as bus address |
| ImsiPolicy.Policy.EnableBanks | experiments/el1-pci0/kernel/drivers/thunderbolt/x1-imsi-policy.c:107-170 | at most one write, which only sets bits 23 to 30; succeeds exactly when every check passes |
| ImsiReceiver.Setup | experiments/el1-pci0/kernel/drivers/thunderbolt/x1-imsi.c:191-291 | a receiver that is associated has passed both policies, for its own target |
| ImsiReceiver.PolicyHolds | experiments/el1-pci0/kernel/drivers/thunderbolt/x1-imsi-policy.c:107-234 | the target of an accepted policy is outside every memory window as CPU and as bus address, and at most one mask write set bank bits only |
| ImsiReceiver.Imsi.Prepare | experiments/el1-pci0/kernel/drivers/thunderbolt/x1-imsi.c:293-339 | admitted exactly when there is no owner, and then every earlier receiver was stopped, released and retired; an associated receiver has its 8 bytes outside every memory window and the mask changed in bank bits only |
| ImsiReceiver.Imsi.Stop | experiments/el1-pci0/kernel/drivers/thunderbolt/x1-imsi.c:350-417 | one attempt; finished exactly when 8 banks are disabled and 8 parents detached |
| ImsiReceiver.Imsi.Release | experiments/el1-pci0/kernel/drivers/thunderbolt/x1-imsi.c:419-484 | one attempt, after which the receiver is retirable or failed |
| ImsiReceiver.Imsi.Retire | experiments/el1-pci0/kernel/drivers/thunderbolt/x1-imsi.c:489-515 | gives up ownership only of a receiver without live parts |
| ImsiReceiver.OneLiveReceiver | experiments/el1-pci0/kernel/drivers/thunderbolt/x1-imsi.c:293-339 | at most one receiver is live, and it is the owner |
| ImsiReceiver.BrokenLocksOut | experiments/el1-pci0/kernel/drivers/thunderbolt/x1-imsi.c:293-515 | after a failure of the owner no sequence of calls admits another receiver |
| Firmware.Validate | snapshot/module/qcom-usb4-fw.c:20-57 | accepts exactly the images of runs of good records; otherwise the first bad record decides the error |
| Firmware.GoodIsFaultless | snapshot/module/qcom-usb4-fw.c:27-54 | a good record raises no objection wherever it stands |
| Firmware.ImageInjective | snapshot/module/qcom-usb4-fw.c:5-8 | no two runs of records have the same image |
| Firmware.InitMcu | snapshot/module/qcom-usb4-mcu.c:23-64 | RAM and the control register never overlap; the exact sizes both layouts take |
| Firmware.Router.FwUpload | snapshot/module/qcom-usb4-fw.c:59-88 | a rejected image causes no write; an accepted one writes exactly its words, in order |
| Firmware.Router.Upload | snapshot/module/qcom-usb4-mcu.c:85-105 | succeeds exactly for good images while RUN is clear; the control register is written once, first, with zero |
| Firmware.WritesInside | snapshot/module/qcom-usb4-fw.c:46-51 | every word lands inside RAM |
| Firmware.WritesMissControl | snapshot/module/qcom-usb4-mcu.c:51-55 | no word touches the control register |
| Firmware.KeptIffConsistent | snapshot/module/frontend.c:171-184 | reading back finds every word exactly when no address got two different ones |
| Firmware.Router.Verify | snapshot/module/frontend.c:171-184 | the read-back passes exactly when all words of all records are in memory |
| Firmware.Router.UploadChecked | snapshot/module/frontend.c:160-189 | for a good image and a stopped controller it succeeds exactly when no two records put different words at one address; otherwise nothing is written |
| CapabilityWalk.Validate | snapshot/kernel/drivers/thunderbolt/qcom-x1-pcie.c:141-192 | passes exactly when the header is right and the list is acyclic, aligned, in the window, with valid identifiers and one fitting root port; no slot is read twice; the error says whether the list is malformed where the walk stops or lacks the root port |
| CapabilityWalk.AtMost48 | snapshot/kernel/drivers/thunderbolt/qcom-x1-pcie.c:162-183 | a list that visits no slot twice has at most 48 entries, so the bound cuts none short |
| CapabilityWalk.ListEnds | snapshot/kernel/drivers/thunderbolt/qcom-x1-pcie.c:162-185 | a walk that stops at the end mark or at the bound has seen the whole of any well-formed list |

## Left out

- CommandQueue.ItsQueue.QueueFull: the stalled bit of CREADR is taken as clear, because a stalled ITS consumes nothing more.
- CommandQueue.ItsQueue.SendCommand: the contents of commands and the cache flush are not modelled; a command is a value.
- VlpiMapping.Vlpis.VlpiMap: only lazy mapping; with eager mapping the VM code returns at once. Doorbells, VINVALL and the properties of a vLPI are not modelled.
- VpeProxy.Proxy.constructor: needs more than one CPU, the exact condition of `VpeProxy.SizesAgree`.
- VpeProxy.Proxy.SendCmd: only for GICv4.0; vPEs of GICv4.1 use another chip.
- LpiAffinity.Lpis.Activate: fewer than 2^31 - 1 interrupts exist, as the LPI number space guarantees; atomicity of the counters is taken for granted.
- DeviceLpis.LpiDomain.CreateDevice: the contents of the ITT and the device table, and MAPD, are not modelled; a request is for at least one vector.
- TopologyWalk.StepProgress: only well-formed trees up to the depth a 64-bit route can name; a port without a remote end in the middle of a walk is excluded by well-formedness.
- DmaCredits.Domain.AllocDma: HopID allocation and path programming are not part of this model; new hops start with zero credits. Numbers of credits are below 2^24. The unconditional count of the first receive hop on adapters without credit allocation is kept but has no law.
- DpBandwidth.Manager.Available: links stay symmetric and carry no USB 3.x tunnel, so the asymmetric maximum and the release of USB 3.x bandwidth do not occur.
- DpBandwidth.Manager.AllocDp: no USB 3.x bandwidth is released first and no link switches its width, as neither occurs on these links.
- DpBandwidth.Manager.Establish: tunnels that firmware left behind are not discovered, and what a tunnel consumes outside allocation mode does not change once DPRX capabilities arrive.
- DpBandwidth.Manager.Run: sound for regular requests, and for new tunnels while something is on offer; `DpBandwidth.RequestIsSafe`, `DpBandwidth.UnwrittenShrink` and `DpBandwidth.EstablishedFits` say what the other steps do.
- StorageService.Run: a generation is a natural number, as the kernel prints it; time-outs of helper processes, notification texts, and an error of eject_now that ends the process are left out. Desktop unmounting has no effect on the model beyond time.
- ImsiReceiver.Setup: register addresses and the interrupt chip are reduced to whether a step succeeds.
- Firmware.Validate: a missing image is the empty one. Firmware.InitMcu takes an aligned, present mapping.
- Firmware.Router.FwUpload: the router's write callback, which never fails; a failing transport is not modelled.
- CapabilityWalk.Validate: the fields stored on success are not modelled.
- Control channel, HopIDs, asymmetric links, CLx, TMU, NVM, retimers, sysfs, ITS table setup, DROM contents and the logging headers would add input and output or single-branch members.
