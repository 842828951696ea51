# Verification of the VPC controller

A VPC resource declares bridge domains, routing tables and, per routing table, the bridge domains it
routes for. The controller compiles that into SR Linux configuration, one device tree per node of the
topology, and three smaller mechanisms surround the compiler: gateway addresses are computed from
prefixes, network instances get an index from a registry, and a counter decides how soon a resource is
looked at again. This project models the four and proves what they are for.

**The compiler.** `populateSchema` makes three passes (bridge domains, routing tables, the lists of
routing tables) of nested loops over Go maps, whose order is arbitrary. Every step creates or
overwrites parts of a device tree that later steps read. `Intent` and `Populate` are those methods, on
objects whose fields they update. `Compilation.Compile` says, without steps, what the devices end up
with: which network instances, with which interfaces and tunnels, which subinterfaces with which
addresses. The link is made in three stages: a method's effect is a sequence of writes (`Populate`),
a sequence of writes has a last writer for every subinterface (`DeviceTree`), and any complete run of
writes amounts to `Compile` (`Correctness.RunIsCompile`). `Reconciler.PopulatePhases` puts them
together: a run succeeds iff `AllOk`, and then the intent equals `Compile`. What is proved of `Compile`
in `Properties` and `IrbGateways` is therefore proved of every successful run. `Declared` restates the
whole of `Compile`, and of `AllOk`, field by field in terms of what the VPC declares and the library
answers, without the compiler's own notions, and `Worked` follows one VPC to the last field.
`FrameOfRuns` compares two runs, each with the allocation it makes itself: one VPC declares a bridge
domain that the other does not. `Panic` says when a run ends in a panic.

**Gateway addresses.** `BigInt` and `Net` connect bytewise masking with division by a power of two
and minimal big-endian encodings with bounds on numbers, so that `Gateway` can say exactly when an
address exists and which one it is. A network address is replaced by the first or last address of its
network, except on point-to-point links (section 2.1 of RFC 3021, section 6 of RFC 6164).

**Indexes** (`Registers`) and **the requeue counter** (`Speedy`, `Watcher`) are the handler classes
themselves, plus lemmas over several passes, and over every interleaving of the counter's atomic steps.

## What turned out not to hold

- Of the bridge domains a routing table lists, the last one to select an interface on a device
  overwrites the gateways of the others there. With more than one per device, as in
  `examples/multus.yaml`, the earlier gateways are lost. `IrbGateways.KeptIff` is the exact
  condition, `OtherNetworksAreLost` says that different networks never meet it, and
  `GatewayIsLost` is an input.
- Normalising prefixes twice is not always the same as once: a gateway in an IPv4-mapped IPv6 network is
  written as IPv4 text with an IPv6 length and no longer parses. `Gateway.MappedExample` is an input,
  and `Gateway.AddressesIdempotent` shows that this is the only exception.
- The second copy of the computation, in `pkg/schema`, treats 31 as the point-to-point length of
  IPv6 as well, and 127 as no such length (`AddressInfo.AgreesWithIPv6InfoIff`, with inputs in
  `DisagreeExample`).
- Two routing tables that claim one interface and VLAN with different addresses make the result
  depend on Go's map order (`Properties.ConfluentIff`); no other overlap does.
  `Conflicts.ConflictExample` is an input all of whose runs succeed.
- The gateway of a network whose first byte is zero is refused when its number does not fill all bytes of
  an address (`Gateway.GetIndexedIPExact`). `Gateway.ZeroByteExample` is an input.
- The IRB branch follows a pointer that is nil when a listed bridge domain has no prefix of one of the
  families, and the process panics. The model gives this an outcome of its own, `Panicked`.
  `Reconciler.PopulatePhases` says exactly which runs end so, `Panic.PanicIff` that a run in which
  nothing else is wrong does iff an entry that joins lacks a family, and `Ipv4OnlyPanics` is an input.

## Assumptions

Library code that the controller calls enters as follows.

- `GetBdName` and `GetRtName` are injective with disjoint ranges, and `GetNiKind` tells them apart:
  the datatype `Registers.NiName`. Indexes and VLAN ids are natural numbers.
- The intent's `AddChild` keeps a child that is already there.
- Address text is a parser and a printer, `Net.AddressText`. Only lemmas about printing and reading
  back require it to be `Faithful`, which `Net.FaithfulExists` shows can be met.
- `GetEpgAndNodeItfceInfo` and `GetSelectedItfces` are the two functions of `Compilation.Library`.
  What they select are Ethernet interfaces, listed by name, and none is called `irb0`.
- The registry never gives one index to two network instances, no register disappears once requested,
  and an allocation is final. Calls may fail, and registers may change between any two of them
  (`Registers.ApiServer.Call`).
- The order in which Go ranges over a map is either an input (`Reconciler.RangeOrders`) or an arbitrary
  choice inside a loop. Node names may repeat. The search loop for a listed bridge domain is a
  membership test.

`Compile` keeps one order as a parameter, that of the routing tables in the second pass, because
only that one can be seen in a result.

## Model

| member | source | states |
|---|---|---|
| Decimal.JoinedInjective | internal/controllers/vpc/populate-srl.go:218-224 | A name, a separator and a decimal index, joined, determine the name and the index, whatever characters the name has |
| Decimal.ItoaDenotes | internal/controllers/vpc/populate-srl.go:218-224 | The decimal text of an index denotes that index and has no leading zero |
| BigInt.ValueOfBytes | internal/controllers/vpc/populate-srl.go:473-484 | Reading back a minimal encoding gives the number, and the encoding has no leading zero byte |
| BigInt.BytesLength | internal/controllers/vpc/populate-srl.go:473-475 | The encoding has n bytes iff the number lies between 256^(n-1) and 256^n |
| BigInt.ValueInjective | internal/controllers/vpc/populate-srl.go:478-484 | Addresses of one length are equal iff their numbers are |
| BigInt.AndHighMask | internal/controllers/vpc/populate-srl.go:465 | And-ing with a mask of high bits removes exactly the remainder below it |
| Net.ParseCIDR | internal/controllers/vpc/populate-srl.go:359-363 | A parsed prefix is a 16-byte address and a network whose address is already masked |
| Net.FaithfulExists | internal/controllers/vpc/populate-srl.go:372-374 | The law assumed of address text, that parsing reads back what was printed, is satisfiable |
| Net.MaskIsRounding | internal/controllers/vpc/populate-srl.go:465 | Masking byte by byte rounds the address's number down to a multiple of 2^h, h the host bits |
| Net.ParseCIDRExact | internal/controllers/vpc/populate-srl.go:359-363 | In numbers: the address in 16 bytes, and the network of the prefix length that starts at the address rounded down to a multiple of 2^h; other text is refused |
| Net.CanonicalExact | internal/controllers/vpc/populate-srl.go:478-484 | The bytes that count are the last four of ::ffff:a.b.c.d, and all of any other address |
| Net.MaskedEqualIffSameBlock | internal/controllers/vpc/populate-srl.go:465 | Two addresses agree under a mask iff dividing them by 2^h gives the same number |
| Net.MappedNetworkLength | internal/controllers/vpc/populate-srl.go:478-484 | A network with an IPv4-mapped address has a prefix length of at least 96 |
| Net.EffectiveMask | internal/controllers/vpc/populate-srl.go:465 | Membership in a mapped network is decided on four bytes, under the mask with 96 bits less |
| Net.NetworkAligned | internal/controllers/vpc/populate-srl.go:464 | The number of a network address is a multiple of 2^h |
| Net.ContainsIsBlockMembership | internal/controllers/vpc/populate-srl.go:465-467 | The bytewise membership test holds iff the lengths agree and base <= number < base + 2^h |
| Gateway.GetIndexedIPExact | internal/controllers/vpc/populate-srl.go:463-484 | Succeeds iff base + index stays in the network and fills every byte of an address; for index >= 0 that is index < 2^h and base + index >= 2^(bits-8), bits being 32 for a mapped network; the result is base + index at full width. Negative indexes are covered as well |
| Gateway.RangeSizeExact | internal/controllers/vpc/populate-srl.go:447-460 | The size is 0 iff there are at least bits - 1 host bits, otherwise 2^h, cut at 65536 for IPv6, and never above 2^30 |
| Gateway.GetLastIPExact | internal/controllers/vpc/populate-srl.go:433-439 | Succeeds iff there is a range and its last address fills every byte, with a non-zero first byte iff the prefix length is at least 2; the result is base + size - 1 |
| Gateway.GetFirstIPExact | internal/controllers/vpc/populate-srl.go:442-444 | With a non-zero first byte it fails only on full-length prefixes; the result is base + 1 |
| Gateway.GatewayIPExact | internal/controllers/vpc/populate-srl.go:366-384 | For each strategy, when there is a gateway and which one: base + 1 in a network of more than one address, or the last address, base + 2^h - 1, cut at 65536 addresses for IPv6, where the prefix length is at least 2; in both cases only if it fills every byte of an address |
| Gateway.GatewayInNetwork | internal/controllers/vpc/populate-srl.go:366-384 | An allocated gateway lies in its network, and equals the network address only in a network of one address |
| Gateway.NormalisePrefix | internal/controllers/vpc/populate-srl.go:359-388 | The loop body computes, for one prefix, the key that the lemmas below are about, with the same errors |
| Gateway.NormaliseExact | internal/controllers/vpc/populate-srl.go:359-388 | In numbers: a prefix is kept as written iff it parses and its address is no multiple of 2^h or its length is the point-to-point one; otherwise it succeeds iff its gateway exists, and the text that comes out parses to that gateway number in the same network |
| Gateway.NetworkAddressIff | internal/controllers/vpc/populate-srl.go:364 | The comparison of the two texts finds exactly the addresses that are multiples of 2^h |
| Gateway.GetAddresses | internal/controllers/vpc/populate-srl.go:356-430 | Both address functions, for either family, compute the specification `Addresses`, error of the first bad prefix included |
| Gateway.AddressesExact | internal/controllers/vpc/populate-srl.go:356-430 | Success iff every prefix succeeds on its own; the keys are the image of the set of prefixes and each entry carries its own key |
| Gateway.AddressesDependOnSet | internal/controllers/vpc/populate-srl.go:356-430 | Order and repetition of prefixes do not matter |
| Gateway.FirstError | internal/controllers/vpc/populate-srl.go:356-430 | A failure is that of the first prefix in the list that fails |
| Gateway.NormaliseKeepsNetwork | internal/controllers/vpc/populate-srl.go:359-388 | A normalised prefix parses to the network and length it came from, except a gateway in an IPv4-mapped network, which no longer parses |
| Gateway.GatewayReparses | internal/controllers/vpc/populate-srl.go:366-384 | The text of an allocated gateway reads back as that address in that network |
| Gateway.NormaliseIdempotent | internal/controllers/vpc/populate-srl.go:359-388 | Normalising again changes nothing iff the prefix is not of that exception, lengths 31, 32, 127 and 128 included |
| Gateway.AddressesIdempotent | internal/controllers/vpc/populate-srl.go:356-430 | Running on the keys of the output returns the output iff no IPv4-mapped network asked for a gateway |
| Gateway.MappedExample | internal/controllers/vpc/populate-srl.go:394-430 | ::ffff:10.0.0.0/104 gets the gateway 10.0.0.1/104, which is refused when it is normalised again |
| Gateway.GatewaysNeverCollide | internal/controllers/vpc/populate-srl.go:364-384 | Equal gateway keys come from the same network |
| Gateway.LastExample | internal/controllers/vpc/populate-srl.go:366-374 | Under the strategy for the last address, 100.112.2.0/24 becomes 100.112.2.255/24 |
| Gateway.ZeroByteExample | internal/controllers/vpc/populate-srl.go:463-484 | 64:ff9b::/96 gets no gateway: its first address is refused |
| AddressInfo.AgreesWithIPv4Info | pkg/schema/schema.go:140-180 | The second copy gives the prefix or the failure of the IPv4 function on every input |
| AddressInfo.AgreesWithIPv6InfoIff | pkg/schema/schema.go:140-180 | It agrees with the IPv6 function iff the prefix is not a network address of length 31 or 127 |
| AddressInfo.GatewayIsNotTheNetworkText | pkg/schema/schema.go:146-170 | On those lengths an allocated gateway is never written like the prefix it replaces |
| AddressInfo.DisagreeExample | pkg/schema/schema.go:140-180 | 2001:db8::/127 is kept by the controller and not by the copy, 2001:db8::/31 by the copy and not by the controller |
| AddressInfo.DataDescribesPrefix | pkg/schema/schema.go:153-178 | The CIDR text of the copy reads back as the network of the prefix, or as the IPv4 network that an IPv4-mapped one stands for; its address, with its length, reads back as its prefix does, and lies in the network iff the given prefix does not cut an IPv4-mapped address below length 96 |
| Speedy.Handler.constructor | internal/speedyhandler/handler.go:7-18 | No resource is tracked at first |
| Speedy.Handler.Init | internal/speedyhandler/handler.go:25-31 | An untracked resource starts at 0, a tracked one keeps its counter, others are unchanged |
| Speedy.Handler.Delete | internal/speedyhandler/handler.go:33-37 | Exactly this resource is no longer tracked; the other counters have their values |
| Speedy.Handler.ResetSpeedy | internal/speedyhandler/handler.go:39-45 | A tracked resource goes back to 0, an untracked one stays untracked |
| Speedy.Handler.GetSpeedy | internal/speedyhandler/handler.go:47-54 | The counter, or 9999 for an untracked resource |
| Speedy.Handler.IncrementSpeedy | internal/speedyhandler/handler.go:56-62 | One more for a tracked resource, nothing otherwise |
| Speedy.Handler.Timeout | internal/controllers/vpc/reconciler.go:227-241 | Undisturbed, the wait is 1, 5, 5 or 60 seconds for a counter of 0, 1, 2 or more, 60 for an untracked resource; the counter grows by one iff it was at most 2; others are unchanged |
| Speedy.TimeoutIsTwoSteps | internal/controllers/vpc/reconciler.go:227-241 | The two critical sections of a call, one after the other, have the effect of the method |
| Speedy.WaitsAfterReset | internal/controllers/vpc/reconciler.go:227-241 | After a reset of a tracked resource the waits are 1, 5, 5 seconds and then one minute for ever |
| Speedy.StepKeepsInv | internal/speedyhandler/handler.go:25-62 | Every atomic step by anyone keeps: counter + pending increments <= 2 + w, and short waits are covered by restarts |
| Speedy.RunKeepsInv | internal/speedyhandler/handler.go:25-62 | Hence so does every interleaving with at most w calls in flight on a resource |
| Speedy.CounterBound | internal/controllers/vpc/reconciler.go:227-241 | In every reachable state counter + pending increments <= 2 + w, so the counter is at most 3 when w = 1 |
| Speedy.ShortWaitBudget | internal/controllers/vpc/reconciler.go:227-241 | Over a whole run there are at most (2 + w) short waits for each reset of a tracked resource or init of an untracked one; three for w = 1 |
| Speedy.DeletedWaitsLong | internal/speedyhandler/handler.go:33-54 | After a deletion every wait is 60 seconds until the resource is initialised again, whatever else happens, pending increments included |
| Speedy.InitAfterDeleteStartsOver | internal/speedyhandler/handler.go:25-37 | After that init the waits are 1, 5, 5, 60 from the start, whatever the counter was |
| Speedy.BoundsReached | internal/controllers/vpc/reconciler.go:227-241 | Both bounds are exact: for each w >= 1 there is a run that reaches them |
| Watcher.ConcernedExact | internal/controllers/vpc/watchnddasrldevices.go:86-96 | A VPC is concerned iff it is listed and in the namespace of the device |
| Watcher.ConcernedConcat | internal/controllers/vpc/watchnddasrldevices.go:86-96 | The concerned VPCs come in list order |
| Watcher.Add | internal/controllers/vpc/watchnddasrldevices.go:70-98 | Exactly the tracked counters of the concerned VPCs become 0, none appears or goes, and the concerned VPCs are queued in list order; nothing happens for another kind of object or a failing list |
| VpcSpec.GetBridgeDomains | apis/vpc/v1alpha1/vpc_interfaces.go:188-197 | The names are exactly those declared, and under each is its last declaration |
| VpcSpec.GetRoutingTables | apis/vpc/v1alpha1/vpc_interfaces.go:199-208 | The names are exactly those declared, and under each is its last declaration |
| VpcSpec.GetBridge2RoutingTable | apis/vpc/v1alpha1/vpc_interfaces.go:210-221 | The names are exactly those of the declared routing tables, and under each is the list of its last declaration |
| VpcSpec.BridgeDomainsExact | apis/vpc/v1alpha1/vpc_interfaces.go:193-195 | What the map of bridge domains contains: the declared names, each with its last declaration |
| VpcSpec.RoutingTablesExact | apis/vpc/v1alpha1/vpc_interfaces.go:204-206 | The same for routing tables |
| VpcSpec.InsertBridgeDomain | apis/vpc/v1alpha1/vpc_interfaces.go:188-197 | A declaration under a new name, anywhere in the list, adds exactly one entry |
| Registers.ApiServer.CreateNiRegister | internal/nihandler/handler.go:75-81 | Succeeds iff the call gets through; then the register exists |
| Registers.ApiServer.GetNiRegister | internal/nihandler/handler.go:59-73 | Succeeds iff the call gets through and the register is ready with an index, which is returned |
| Registers.CreateRegisters | internal/controllers/vpc/register.go:34-53 | Succeeds iff every call gets through; then every name has a register |
| Registers.ReadRegisters | internal/controllers/vpc/register.go:54-69 | On success exactly the indexes held by the registers have been filled in; it succeeds if all are allocated and the calls get through |
| Registers.AllocateNiIndexes | internal/controllers/vpc/register.go:31-71 | One pass: requests that get through leave every register requested even if a read fails; a result has exactly the VPC's network instances, each with its registry index |
| Registers.TwoPassesSuffice | internal/controllers/vpc/register.go:31-71 | After one pass of requests, and once the registers are allocated, the next pass returns the complete allocation, and every later pass the same |
| DeviceTree.RunByDevice | internal/controllers/vpc/populate-srl.go:182-187 | Exactly the devices written to have a tree, and each tree is determined by the writes to that device |
| DeviceTree.NiOfRun | internal/controllers/vpc/populate-srl.go:198-225 | A network instance exists iff some write names it, and its lists collect its writes in whatever order they came |
| DeviceTree.LastWriterDecides | internal/controllers/vpc/populate-srl.go:260-321 | If no bridge domain writes after a routing table, a subinterface is what its last writer makes of an empty one |
| DeviceTree.NoEmptyInterface | internal/controllers/vpc/populate-srl.go:261-300 | Every interface created has a subinterface |
| DeviceTree.VxlansOfRun | internal/controllers/vpc/populate-srl.go:330-350 | The tunnel subinterfaces are those of the network instances that wrote one |
| Intent.Device.GetOrCreateNetworkInstance | internal/controllers/vpc/populate-srl.go:198 | An existing network instance is returned as it is, a missing one is added empty, nothing else changes |
| Intent.Device.GetOrCreateSubinterface | internal/controllers/vpc/populate-srl.go:261-270 | Likewise for a subinterface and its interface |
| Intent.Intent.AddChild | internal/controllers/vpc/populate-srl.go:182 | A device that is there keeps its tree, a new one gets an empty tree, other devices are unchanged |
| Intent.MarkAnycast | internal/controllers/vpc/populate-srl.go:306-308 | The loop marks every address, in any order, and changes nothing else |
| Intent.PopulateNi | internal/controllers/vpc/populate-srl.go:198-225 | After the first part of a call every field of the network instance but its two lists is a function of its name and index; the lists are kept |
| Intent.PopulateItfce | internal/controllers/vpc/populate-srl.go:258-351 | The switch on the interface kind completes the write to the device, unless it panics, iff an IRB leg of a routing table lacks a family; then only the empty subinterface has been created |
| Intent.SrlPopulateSchema | internal/controllers/vpc/populate-srl.go:176-354 | The call succeeds, fails or panics under exact conditions: it fails iff a prefix does not normalise, and panics iff all do and an IRB leg of a routing table lacks a family. A success is one write on one device; after a failure or a panic exactly the part done before it is there; all other devices are unchanged |
| Intent.PartLeft | internal/controllers/vpc/populate-srl.go:198-300 | What an unsuccessful call leaves: the network instance with the lists it had, after a panic also the subinterface, empty if new, and everything else on the device as before |
| Populate.SrlPopulateSelected | internal/controllers/vpc/populate-srl.go:41-105 | For one network instance on one device: never a panic, and success iff selection and prefixes are in order; the writes are exactly one per selected interface, and the tunnel iff it is vxlan and something was selected |
| Populate.SrlPopulateRouteIrb | internal/controllers/vpc/populate-srl.go:107-161 | For one list entry on one device: nothing unless its bridge domain selects an interface there, else the legs and tunnels of both network instances; it panics iff the entry joins, lacks a family, and its other prefixes normalise |
| Populate.PopulateOwn | internal/controllers/vpc/reconciler.go:290-305 | One round of the first two passes writes exactly what its network instance selects, on all SRL nodes |
| Populate.PopulateBridgeDomains | internal/controllers/vpc/reconciler.go:286-306 | In any order, the first pass succeeds iff every bridge domain is in order and writes exactly what they select |
| Populate.PopulateRoutingTables | internal/controllers/vpc/reconciler.go:308-330 | The same for the second pass; and the last routing table of the order to claim a subinterface wrote it last |
| Populate.PopulateEntry | internal/controllers/vpc/reconciler.go:333-360 | A list entry is handled on every SRL node; an undeclared bridge domain is passed over |
| Populate.PopulateJoins | internal/controllers/vpc/reconciler.go:332-362 | In any order, the third pass succeeds iff every list does, and the last entry of a list to join on a device wrote its routing table's leg last; after two passes in order it panics iff the first entry of the order that is not in order lacks a family only |
| Populate.ListsOkIffJoinsOk | internal/controllers/vpc/reconciler.go:332-362 | After the first two passes the third succeeds iff each entry that joins somewhere has prefixes of both families that normalise |
| Populate.OwnLastWrite | internal/controllers/vpc/populate-srl.go:86-90 | Among the writes of one network instance at most one touches an Ethernet subinterface |
| Populate.ListLastWrite | internal/controllers/vpc/reconciler.go:332-362 | A list walked from the front leaves the leg to its last joining entry, and writes no other routing table's leg |
| Compilation.LastJoin | internal/controllers/vpc/reconciler.go:333-360 | The result is a joining entry after which none joins, or none exists |
| Correctness.RunIsCompile | internal/controllers/vpc/reconciler.go:286-362 | Every complete run, whatever the orders of its loops, leaves exactly the declarative configuration on every device |
| Correctness.RunNetworkInstances | internal/controllers/vpc/populate-srl.go:196-225 | The network instances of a run are the declared ones, with exactly the declared lists |
| Correctness.RunInterfaces | internal/controllers/vpc/populate-srl.go:258-324 | Its subinterfaces are the declared ones, with exactly the declared contents |
| Correctness.RunVxlans | internal/controllers/vpc/populate-srl.go:325-350 | Its tunnel subinterfaces are the declared ones |
| Reconciler.AllocationIsInput | internal/controllers/vpc/register.go:54-70 | What the registry allocated gives the compiler distinct indexes for every network instance of the VPC |
| Reconciler.InputReads | internal/controllers/vpc/reconciler.go:266-286 | A run reads the last declaration of every bridge domain and routing table, the given nodes, library answers and strategy, and for each network instance the index its register holds |
| Reconciler.PopulatePhases | internal/controllers/vpc/reconciler.go:286-364 | The three passes on an empty intent succeed iff `AllOk`, in whatever orders, and then the intent is `Compile`; they panic iff `RunPanics`, which depends on the order of the third pass only |
| Reconciler.Application.PopulateSchema | internal/controllers/vpc/reconciler.go:258-365 | Whatever earlier runs left, success and panic are decided by the current input alone and the fresh intent of a success is its compile; other resources are unchanged |
| Reconciler.Application.Update | internal/controllers/vpc/reconciler.go:159-219 | `Deploy` is called exactly when all steps before it succeed, and is handed the compile of the current spec, after any history of successful and failed updates; it panics iff the run does; the counter is initialised in every case |
| Reconciler.Application.FinalUpdate | internal/controllers/vpc/reconciler.go:221-225 | Only this resource's intent is forgotten |
| Reconciler.Application.Delete | internal/controllers/vpc/reconciler.go:243-250 | A deletion populates once more, and reports success iff that succeeds; the counter is initialised |
| Reconciler.Application.FinalDelete | internal/controllers/vpc/reconciler.go:252-256 | The resource is no longer tracked; other counters stay |
| Panic.PanicIff | internal/controllers/vpc/populate-srl.go:302-321 | No run panics unless an entry that joins has no prefix of one family; if all network instances are in order and the prefixes of the joining entries normalise, a run panics, in every order, iff there is such an entry |
| Panic.Ipv4OnlyPanics | internal/controllers/vpc/populate-srl.go:302-321 | A routing table that lists a bridge domain with 100.112.2.0/24 and no IPv6 prefix makes every run panic |
| Properties.DeviceOf | internal/controllers/vpc/populate-srl.go:182-187 | Devices without configuration are exactly those for which nothing is declared |
| Properties.VxlanSpec | internal/controllers/vpc/populate-srl.go:330-350 | An index has a tunnel subinterface iff a network instance on the device with a vxlan tunnel owns it |
| Properties.ReferencesResolve | internal/controllers/vpc/populate-srl.go:218-350 | At the end of a run every interface and tunnel entry of every network instance resolves, and its EVPN reference resolves iff its tunnel, own or default, is vxlan |
| Properties.FirstWriteDangles | internal/controllers/vpc/populate-srl.go:218 | Between steps it does not: the first interface of a network instance leaves the EVPN reference dangling |
| Properties.AttachedIff | internal/controllers/vpc/populate-srl.go:264-324 | A network instance refers to a subinterface iff it claims that interface and VLAN, or it is its own IRB leg |
| Properties.AttachmentUniqueIff | internal/controllers/vpc/populate-srl.go:264-324 | Every subinterface is attached to a network instance, and to only one iff no interface and VLAN of the device is claimed twice |
| Properties.TunnelsAttachedOnce | internal/controllers/vpc/populate-srl.go:326-350 | Every tunnel subinterface is attached to exactly one network instance |
| Properties.SameIdentityEverywhere | internal/controllers/vpc/populate-srl.go:213-225 | One network instance has the same EVI on all its devices, and the same VNI where it has a tunnel; what it exports on one device, target:65555:index, is what it imports on any other |
| Properties.DistinctIdentities | internal/controllers/vpc/populate-srl.go:213-349 | Two network instances share no EVI, tunnel entry, import or export target, on any devices, none imports what the other exports, and no VNI is shared where both have a tunnel |
| Properties.BridgedPurity | internal/controllers/vpc/populate-srl.go:271-291 | A subinterface is routed iff some routing table claims it; one typed bridged carries no IP configuration; IRB legs have no type |
| Declared.PicksIff | internal/controllers/vpc/populate-srl.go:163-174 | A network instance selects an interface on a device iff an SRL node has that name and the selectors declared for that bridge domain or routing table validate and select it |
| Declared.ClaimsIff | internal/controllers/vpc/populate-srl.go:163-174 | Claims in the same terms |
| Declared.ListsIff | internal/controllers/vpc/reconciler.go:332-360 | An entry of a list joins on a device iff it names a declared bridge domain whose declared selectors pick something there |
| Declared.VxlanIff | apis/vpc/v1alpha1/vpc_interfaces.go:243-287 | A tunnel is vxlan iff the own one is, or none is named and that of the defaults is |
| Declared.ConfiguredIff | internal/controllers/vpc/reconciler.go:286-330 | A device is configured iff the declared selectors of some bridge domain or routing table pick an interface of an SRL node of that name |
| Declared.InstanceIff | internal/controllers/vpc/populate-srl.go:176-198 | A network instance is on a device iff its declared selectors pick an interface there or it takes part in routing there |
| Declared.InstanceFields | internal/controllers/vpc/populate-srl.go:198-225 | All its other fields, value by value: type, MAC learning or IP forwarding, EVPN instance and route targets |
| Declared.InstanceLists | internal/controllers/vpc/populate-srl.go:264-350 | Its lists hold exactly the interfaces it picks with their VLANs, irb0 with its index if it takes part in routing, and vxlan0 with its index if it uses vxlan |
| Declared.TunnelIff | internal/controllers/vpc/populate-srl.go:325-350 | A tunnel subinterface exists under an index iff a network instance there uses vxlan and has it; all its fields |
| Declared.EthernetIff | internal/controllers/vpc/populate-srl.go:260-293 | A subinterface other than of irb0 exists iff some network instance picks that interface and VLAN |
| Declared.BridgedIs | internal/controllers/vpc/populate-srl.go:271-279 | If no routing table picks it, it is bridged with its VLAN and carries nothing else |
| Declared.RoutedIs | internal/controllers/vpc/populate-srl.go:280-291 | Otherwise it is routed with its VLAN and has exactly the normalised prefixes of the last routing table of the order to pick it, none anycast |
| Declared.BridgedLegIs | internal/controllers/vpc/populate-srl.go:295-303 | A network instance has a leg on irb0 under its index iff it takes part in routing; that of a bridge domain is empty |
| Declared.RoutedLegIs | internal/controllers/vpc/populate-srl.go:304-321 | That of a routing table, field by field: the normalised prefixes of the last entry of its list to take part, the IPv4 ones anycast, neighbour learning and virtual router id |
| Declared.SucceedsIff | internal/controllers/vpc/reconciler.go:258-365 | A run succeeds iff all declared selectors validate and select on every SRL node, every selected prefix normalises, and every entry that takes part in routing has prefixes of both families that do |
| Worked.WorkedExample | internal/controllers/vpc/reconciler.go:286-362 | One VPC with two nodes, compiled to the last field: the complete configuration of its one SRL leaf, with nothing assumed |
| Properties.ConfluentIff | internal/controllers/vpc/reconciler.go:286-362 | The result is the same for all orders iff no two routing tables claim one interface and VLAN with different addresses |
| Properties.ConflictSeparates | internal/controllers/vpc/reconciler.go:308-330 | Two such routing tables give two orders with different results |
| Conflicts.ConflictExample | internal/controllers/vpc/reconciler.go:308-330 | Two routing tables with 100.112.2.0/24 and 100.112.3.0/24 on one interface and VLAN: every run succeeds, and the order decides the result |
| IrbGateways.LastWriter | internal/controllers/vpc/populate-srl.go:140-147 | The addresses of a routing table's leg are exactly the normalised prefixes of the last entry to join, the IPv4 ones anycast |
| IrbGateways.LegIs | internal/controllers/vpc/populate-srl.go:295-324 | A network instance has an IRB leg on a device iff it takes part in a join there |
| IrbGateways.KeptIff | internal/controllers/vpc/populate-srl.go:295-324 | An earlier joining entry keeps its gateways iff the last one has them all |
| IrbGateways.OtherNetworksAreLost | internal/controllers/vpc/populate-srl.go:295-324 | An IPv4 gateway of an earlier entry, in a network where the last entry has none, is not among the addresses of the leg |
| IrbGateways.FirstGatewayLost | internal/controllers/vpc/populate-srl.go:295-324 | A VPC whose routing table lists two bridge domains on one leaf compiles, and the first one's IPv4 gateway is not among the addresses of the leg |
| IrbGateways.GatewayIsLost | examples/multus.yaml:35-46 | So it goes with 100.112.2.0/24 and 100.112.3.0/24 as in the example, with nothing assumed: such a run succeeds, 100.112.2.1 is not on the leg, and 100.112.3.1 is the only IPv4 address there |
| Frame.OtherInstancesUnchanged | internal/controllers/vpc/reconciler.go:286-306 | Adding a bridge domain that no routing table lists, and an index for it, changes no other network instance on any device |
| Frame.SubinterfacesUnchanged | internal/controllers/vpc/populate-srl.go:176-354 | Nor any subinterface there was; the only new ones are bridged, and claimed by it and nothing else |
| Frame.TunnelsUnchanged | internal/controllers/vpc/populate-srl.go:325-350 | Nor any tunnel subinterface but its own |
| Frame.DevicesUnchanged | internal/controllers/vpc/reconciler.go:286-306 | Nor does it take away a device; the only new ones are those it selects on |
| Frame.SuccessUnchanged | internal/controllers/vpc/reconciler.go:286-362 | The compile with it succeeds iff the one without does and its own selections are in order |
| FrameOfRuns.InputsDifferByOne | internal/controllers/vpc/register.go:31-71 | Two VPCs whose lists differ by one declaration, each with the allocation of its own run at one registry, before or after the other, have inputs that differ in that bridge domain and its index only |
| FrameOfRuns.PartnerExists | internal/controllers/vpc/register.go:31-71 | Every run has such a partner: an allocation for the larger VPC is the old one with an unused index |
| FrameOfRuns.RunsUndisturbed | internal/controllers/vpc/reconciler.go:258-365 | So, between two such runs, adding or removing the bridge domain changes success only by its own selections, and on all devices nothing but its network instance, its tunnel and the bridged subinterfaces that only it claims |

## Left out

- Speedy.Handler.Timeout: states the call without interference; interference is in the step system of the same module, whose steps are the handler's methods.
- Reconciler.Application.Update: the status setters are absent, whether the library's `List`, `Validate`, `Delete` and `Deploy` succeed is an input, and what `Deploy` does with the configuration it is handed is not modelled.
- The abstraction children that select interfaces are part of the library oracle.
- `Destroy` and the managed reconciler: library calls.
- The protocol lookups and status setters of the API types: easy, and not used by the compiler.
- The device, interface and network instance tree of `pkg/schema`: the controller does not use it; only its copy of the gateway computation is here.
- `hash`: no caller.
- Concrete IPv4 and IPv6 text: a parser and a printer with a law stand for it.
- Widths of integers: indexes, VLAN ids and counters are unbounded, except where a bound is the point (range sizes and offsets).
- More than one reconcile at a time on the maps of the application; for the counter any number is covered.
- Kubernetes clients, watches, manager setup, commands, logging and printing.
