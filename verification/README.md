# Network management services: a verified model

This project models the stateful cores of the network management services: the Netlink link-message
parser, the bounded blocking queue, the net-id allocator, the connection registry, the synchronisation of
link state into netd, the service connection states, the per-uid policy store, the Parcel codecs, the timer,
the ordering of IP addresses and the Ethernet link/DHCP state. `dafny verify dfyconfig.toml` checks it.

Objects of the source that change in place are classes with the same fields; its loops are loops. Each
method is proved against a function of its inputs or of the old state, and the lemmas prove what the source
promises about that function: over all inputs, over whole runs, or over every interleaving of threads.

| file | content |
|---|---|
| `Machine.dfy` | fixed-width integers and little-endian byte images |
| `Netlink.dfy`, `NetlinkWire.dfy` | the message and attribute walks; the serialiser they invert |
| `BlockingQueue.dfy` | ring arithmetic, the ring as a sequence, the wait/notify protocol |
| `NetIdManager.dfy` | the cyclic next-fit allocator |
| `LinkTypes.dfy`, `Network.dfy` | link information, differential updates of netd, the connection latch |
| `NetService.dfy` | the service state machine, its traces and callbacks |
| `NetConnService.dfy` | the three lists of the registry and every request on them |
| `NetPolicy.dfy` | decimal strings, the policy store, its file and its runs |
| `ParcelFormat.dfy`, `ParcelCodecs.dfy` | the encodings and their inverses; the step-by-step codecs on a parcel |
| `Timer.dfy` | Start, Stop and the worker as steps |
| `IpData.dfy` | comparison of compact IP data |
| `Ethernet.dfy` | device link state, DHCP requests and what is sent to the connection service |

## What the proofs found

Where a promise is false of the code, the code is kept and the exact condition is proved.

- The full test of the ring is right in every state that pushes and pops of a new queue lead to iff the capacity
  is below 2^31 (`FullTestExact`). Above, it takes some states for full that are not, namely those with
  start + capacity - end = 2^32, but never the reverse, so no element is lost (`FullTestMeans`, `PushUnlessFull`).
  Hence no sleeping producer leaves more free slots than notified producers exactly for capacities below 2^31
  (`ProducersCoveredIff`): above, one can sleep beside free slots (`ProducerSleepsInVain`), but for no capacity except
  0 do all producers and consumers sleep together (`QuiescentStates`).
- A removed route that looks to netd like one that stays (the same interface, destination and gateway address)
  takes the latter with it. A link update keeps netd in agreement with the cache iff there is no such pair
  (`UpdateExact`, `RunExact`); after a run with such pairs netd has exactly the routes whose last event was an addition
  (`RunEnd`, `EndAgreesIff`). Changing only a prefix length loses the route (`PrefixChangeLosesRoute`).
- The connection latch of a network is never cleared, so a reconnection succeeds iff the network was never
  connected, the service is cellular and the supplier agrees (`ReconnectSucceeds`).
- Net ids are never released by networks: the n-th network has id n up to MAX_NET_ID and MAX_NET_ID from there on
  (`FirstPass`), so live ids are distinct iff at most one listed network was created at or after that point
  (`DistinctIffFewLate`, `LiveNetIdsDistinct`); `SharedNetId` is a run that leads to two networks with one id.
- UpdateNetCapabilities searches by net id. One call that asks for a capability is exact iff no listed service has
  the net id and the capability or the network has its own; one that clears it iff there is none or the first
  one listed is on the network (`CapExactIff`; `CapsExactIff` for the two steps of a whole call). While live net
  ids are distinct every call is exact (`DistinctAreReady`).
- Repeating UpdateNetCapabilities changes nothing iff each capability that it clears had at most one listed service under
  the net id (`CapRepeated`, `CapsRepeated`). With shared ids even an exact call can have a repetition that takes another
  network's service (`ClearedTwice`; `ClearTwice` is a run that does so).
- A registration connects the default service and schedules a reconnection unless the connect reports success.
  When a further supplier without INTERNET registers while the default service is up, the connect reports that it
  already is, and the reconnection then takes it down (`FurtherSupplierDisconnects`).
- The file of policies omits temporary ones, and a second `InitPolicy` on one object appends the entries again.
- EthernetManagement::Init applies a device's first configuration before it names the device, so the route and
  the address belong to an interface with the empty name (`InitialConfigNameless`).
- An unregistered device is not kept from sending link information; it is sent under a registered id iff the device
  was registered before the action (`SenderRegistered`, `UnregisteredSends`).
- A name attribute without a zero byte is read on behind its end: the name lies inside the attribute iff the payload
  holds a zero byte (`NameInside`).
- A repeated DHCP result adds the DNS servers once more (`RepeatedResult`).
- A NetLinkInfo or StaticConfiguration survives a Parcel iff its lists are shorter than 2^32, the resolver
  arguments iff theirs are shorter than 2^31 (`LinkInfoRoundTrip`, `StaticRoundTrip`, `ConfigRoundTrip`). What decodes as
  resolver arguments was their encoding iff both counts are non-negative (`ConfigExactIff`, `NegativeCount`).
- `==` on compact IP data is reflexive exactly on the three known families (`StrictTotalOrder`).
- `Network::NetworkConnect` calls `SupplierDisconnection`, although its comment speaks of activation
  (services/netconnmanager/src/network.cpp:50-52). The supplier's answer is any boolean here.

## Model

| member | source | states |
|---|---|---|
| NetlinkMacros.MessageStep | services/ethernetmanager/src/netLink_rtnl.cpp:114-115 | an accepted message advances the pointer and shortens the signed length by the same padded size; the length may become negative, never below -3 |
| NetlinkMacros.AttributeStep | services/ethernetmanager/src/netLink_rtnl.cpp:91-97 | the same for one attribute |
| NetlinkMacros.MessagesInside | services/ethernetmanager/src/netLink_rtnl.cpp:241-255 | for any bytes and any signed length, every accepted message lies whole inside the given length, at a multiple of four |
| NetlinkMacros.MessagesDisjoint | services/ethernetmanager/src/netLink_rtnl.cpp:241-255 | accepted messages do not overlap |
| NetlinkMacros.AttributesInside | services/ethernetmanager/src/netLink_rtnl.cpp:271-277 | every accepted attribute lies inside the attribute length of its walk |
| NetlinkMacros.AttributesDisjoint | services/ethernetmanager/src/netLink_rtnl.cpp:271-277 | accepted attributes do not overlap |
| NetlinkSpec.LinkAttributesInside | services/ethernetmanager/src/netLink_rtnl.cpp:271-277 | every attribute of a link message lies inside that message; a message below 32 bytes has none |
| NetlinkSpec.NameInside | services/ethernetmanager/src/netLink_rtnl.cpp:278-280 | for any bytes, the name read lies inside its attribute, terminator included, iff the payload holds a zero byte |
| NetlinkSpec.CStringEnds | services/ethernetmanager/src/netLink_rtnl.cpp:278-280 | the name read ends at the first zero byte, wherever that is |
| NetlinkSpec.LastOfTypeIsLast | services/ethernetmanager/src/netLink_rtnl.cpp:93-97 | the table entry of a type is the attribute of that type with none of that type after it, and is empty iff no attribute has the type |
| NetlinkSpec.PathsAgree | services/ethernetmanager/src/netLink_rtnl.cpp:79-129 | for every buffer, the named infos of the dump reader are the named events of the listener, in order, with the same flags |
| NetlinkSpec.EveryHandlerReceives | services/ethernetmanager/src/netLink_rtnl.cpp:103-105 | each handler receives all events in order, once per registration |
| NetlinkSpec.CalledInOrder | services/ethernetmanager/src/netLink_rtnl.cpp:103-105 | one event calls the handlers in the order of their registration |
| NetlinkSpec.HandlersAgreeWithDump | services/ethernetmanager/src/netLink_rtnl.cpp:79-283 | for every buffer, a handler registered once receives as named events exactly the named infos of the dump reader |
| NetlinkSpec.CallsOfFirst | services/ethernetmanager/src/netLink_rtnl.cpp:120-127 | the calls one message causes come before those of the messages behind it |
| NetLinkRtnl.FillAttributeTable | services/ethernetmanager/src/netLink_rtnl.cpp:271-277 | the attribute walk leaves in the table, for every type, the attribute of that type that came last |
| NetLinkRtnl.ProcessLinkMsg | services/ethernetmanager/src/netLink_rtnl.cpp:258-283 | the info has the last interface name and the flags of the message, and is empty for anything but Ethernet |
| NetLinkRtnl.ProcessReadMsg | services/ethernetmanager/src/netLink_rtnl.cpp:235-256 | appends one info per NEWLINK or DELLINK message of the walk, in order; nothing for a null buffer |
| NetLinkRtnl.NetLinkRtnl.RegisterHandle | services/ethernetmanager/src/netLink_rtnl.cpp:73-77 | the handler is added last |
| NetLinkRtnl.NetLinkRtnl.ProcessIfInfoMsg | services/ethernetmanager/src/netLink_rtnl.cpp:79-106 | an Ethernet link message calls every handler once, in registration order; others call none |
| NetLinkRtnl.NetLinkRtnl.ProcessMsg | services/ethernetmanager/src/netLink_rtnl.cpp:120-127 | only link messages cause calls |
| NetLinkRtnl.NetLinkRtnl.ProcessLinkEventMsg | services/ethernetmanager/src/netLink_rtnl.cpp:108-129 | the calls made are those of the events of the walk, event by event |
| NetlinkWire.ParserInvertsSerialiser | services/ethernetmanager/src/netLink_rtnl.cpp:235-283 | for every list of well-formed messages, written with the numbers of the wire format, and anything behind them, the parser yields in order what the messages say, and the listener announces in order what they say of Ethernet interfaces |
| NetlinkWire.ReadMessages | services/ethernetmanager/src/netLink_rtnl.cpp:235-256 | the same at any offset of a buffer |
| NetlinkWire.ReadMessage | services/ethernetmanager/src/netLink_rtnl.cpp:246-253 | at an encoded message the header fields, the padded size and the info read are those of the message |
| NetlinkWire.ReadLinkBody | services/ethernetmanager/src/netLink_rtnl.cpp:258-283 | the info read from an encoded link body has its type, its flags and its last name |
| NetlinkWire.ReadAttributes | services/ethernetmanager/src/netLink_rtnl.cpp:272-280 | the attribute walk over an encoded list finds the last interface name of the list, up to its NUL |
| NetlinkWire.ReadAttribute | services/ethernetmanager/src/netLink_rtnl.cpp:273-280 | length, type, padded size and name of an encoded attribute are read back |
| NetlinkWire.StepOverMessage | services/ethernetmanager/src/netLink_rtnl.cpp:241-242 | an encoded message is accepted, and the walk steps over exactly its bytes |
| RingArithmetic.FullTestExact | prebuilts/librarys/netd/include/common/include/blocking_queue.h:35-63 | in 32-bit unsigned arithmetic the full test agrees with the number of elements in every state reachable from the empty ring by pushes and pops iff the capacity is below 2^31 |
| RingArithmetic.FullTestMeans | prebuilts/librarys/netd/include/common/include/blocking_queue.h:35-38 | for every capacity and state, the test holds iff the ring is full or start + capacity - end is 2^32 |
| RingArithmetic.ClimbTo | prebuilts/librarys/netd/include/common/include/blocking_queue.h:47-60 | pushing and popping in turn leads to every pair of equal indices |
| RingArithmetic.FillTo | prebuilts/librarys/netd/include/common/include/blocking_queue.h:47-48 | from capacities of 2^31 on, further pushes lead to the state in which the test errs |
| RingArithmetic.RunInRange | prebuilts/librarys/netd/include/common/include/blocking_queue.h:47-60 | pushes and pops never take an index out of the ring |
| RingArithmetic.WaitMeans | prebuilts/librarys/netd/include/common/include/blocking_queue.h:30-38 | in any ring, when a push and when a pop has to wait, by the number of elements |
| RingArithmetic.MoveMeans | prebuilts/librarys/netd/include/common/include/blocking_queue.h:47-60 | a push where there is room adds one element, a pop where there is one takes one |
| RingArithmetic.AdvanceWraps | prebuilts/librarys/netd/include/common/include/blocking_queue.h:47-48 | advancing an index never leaves the ring and returns to 0 after the last slot |
| BlockingQueue.PushBack | prebuilts/librarys/netd/include/common/include/blocking_queue.h:47-48 | writing at the end index and advancing it appends to the queued sequence, across the wrap too |
| BlockingQueue.PushAdvances | prebuilts/librarys/netd/include/common/include/blocking_queue.h:47-48 | the same with the advance in 32-bit arithmetic |
| BlockingQueue.PopAdvances | prebuilts/librarys/netd/include/common/include/blocking_queue.h:59-60 | reading at the start index and advancing it removes the oldest element |
| BlockingQueue.BlockingQueue.constructor | prebuilts/librarys/netd/include/common/include/blocking_queue.h:27-27 | a new queue is empty, for every capacity |
| BlockingQueue.BlockingQueue.IsEmpty | prebuilts/librarys/netd/include/common/include/blocking_queue.h:30-33 | holds iff nothing is queued |
| BlockingQueue.BlockingQueue.IsFull | prebuilts/librarys/netd/include/common/include/blocking_queue.h:35-38 | holds iff as many elements are queued as the capacity says, or in the states of FullTestMeans; the latter only from 2^31 on |
| BlockingQueue.BlockingQueue.PushUnlessFull | prebuilts/librarys/netd/include/common/include/blocking_queue.h:43-48 | unless the test says full the element is appended and nothing is lost, for every capacity; otherwise nothing changes |
| BlockingQueue.BlockingQueue.PopUnlessEmpty | prebuilts/librarys/netd/include/common/include/blocking_queue.h:55-62 | iff the queue is not empty its oldest element is removed and returned |
| QueueProtocol.InvPreserved | prebuilts/librarys/netd/include/common/include/blocking_queue.h:40-63 | every step of every thread, spurious wakeups and barging included, keeps mutual exclusion, first-in-first-out, the capacity and the covering of sleepers |
| QueueProtocol.InvOverRun | prebuilts/librarys/netd/include/common/include/blocking_queue.h:40-63 | so does every run |
| QueueProtocol.NoLostWakeup | prebuilts/librarys/netd/include/common/include/blocking_queue.h:40-63 | for every capacity, with the 32-bit tests: popped followed by queued is pushed; while a consumer sleeps un-notified there are at most as many elements as notified consumers yet to resume; below 2^31 the same for producers and free slots; above 0 a sleeping producer leaves an element or a notified producer |
| QueueProtocol.QueueServesCalls | prebuilts/librarys/netd/include/common/include/blocking_queue.h:40-63 | over every run, read off the steps alone: what was popped is the arguments of the push calls in the order in which they acted, as many as pop calls acted; the rest is queued; each call acts once, and has acted when its thread is idle again; the notified threads are those that notifications have woken |
| QueueProtocol.HistoryOfCalls | prebuilts/librarys/netd/include/common/include/blocking_queue.h:47-62 | from any state, the elements written are the arguments of the push calls that act, and as many are read as pop calls act |
| QueueProtocol.NotifiedByRun | prebuilts/librarys/netd/include/common/include/blocking_queue.h:49-61 | the notified threads are those woken by a notification that have not got the mutex since |
| QueueProtocol.QuiescentStates | prebuilts/librarys/netd/include/common/include/blocking_queue.h:40-63 | when all threads are idle or asleep, consumers sleep only on an empty queue, producers only on one with an element, below 2^31 on a full one, and both only at capacity 0 |
| QueueProtocol.SomeoneCanMove | prebuilts/librarys/netd/include/common/include/blocking_queue.h:40-63 | in every other reachable state some thread inside a call can go on |
| QueueProtocol.ProducersCoveredIff | prebuilts/librarys/netd/include/common/include/blocking_queue.h:40-63 | in every state of every run a sleeping producer leaves no more free slots than notified producers iff the capacity is below 2^31 |
| QueueProtocol.ProducerSleepsInVain | prebuilts/librarys/netd/include/common/include/blocking_queue.h:40-50 | from 2^31 on, a run after which a producer sleeps, nobody is notified, and there are free slots |
| QueueProtocol.OneThreadRuns | prebuilts/librarys/netd/include/common/include/blocking_queue.h:40-63 | one thread can carry out every run of the ring |
| QueueProtocol.QueuePreserved | prebuilts/librarys/netd/include/common/include/blocking_queue.h:47-60 | every step keeps first-in-first-out, the capacity, and the elements between the indices |
| QueueProtocol.ActingPreserved | prebuilts/librarys/netd/include/common/include/blocking_queue.h:43-57 | what a test established holds until its thread moves an element |
| QueueProtocol.CoveredByNotify | prebuilts/librarys/netd/include/common/include/blocking_queue.h:49-49 | notify_one, waking any sleeper of the other kind or nobody, keeps sleepers covered |
| NetIds.AdvancedIsIteration | services/netconnmanager/src/net_id_manager.cpp:27-31 | the closed form of repeated advances of the last id |
| NetIds.SearchSucceeds | services/netconnmanager/src/net_id_manager.cpp:26-36 | in a reachable state the bounded search finds an id iff one of the range is free |
| NetIds.FirstFitIsNearest | services/netconnmanager/src/net_id_manager.cpp:26-36 | once the allocator has wrapped, the id found is the free one at the least cyclic distance |
| NetIds.NextHandedOut | services/netconnmanager/src/net_id_manager.cpp:26-36 | after n reservations without releases the next advance leads to the free id n, up to MAX_NET_ID; from there on nothing is free |
| NetIdManager.NetIdManager.constructor | services/netconnmanager/include/net_id_manager.h:39-41 | no id is in use and the last id is -1 |
| NetIdManager.NetIdManager.ReserveNetId | services/netconnmanager/src/net_id_manager.cpp:23-39 | returns and marks the first free id after the last one, wrapping from 64511 to 100; when all are in use nothing changes |
| NetIdManager.NetIdManager.ReleaseNetId | services/netconnmanager/src/net_id_manager.cpp:41-48 | exactly the given id becomes free |
| NetIdManager.FirstPass | services/netconnmanager/src/net_id_manager.cpp:23-39 | without releases the ids are 0, 1, 2, ... up to MAX_NET_ID and then MAX_NET_ID for ever; distinct exactly for the first 64512 calls |
| LinkSync.RoutesAfterUpdate | services/netconnmanager/src/network.cpp:181-200 | after an update netd has the image of the new routes minus that of the dropped ones; that is the image of the new routes iff no dropped route looks like a kept one, in particular where the image is injective |
| LinkSync.UpdateExact | services/netconnmanager/src/network.cpp:81-90 | a whole link update leaves netd describing exactly the new information iff no routes clash |
| LinkSync.NetOfDescribes | services/netconnmanager/src/network.cpp:166-213 | what netd is to have for some link information, field by field: interface, destination and gateway address of each route, address and host name of each server, and the interface name |
| LinkSync.UpdateDescribes | services/netconnmanager/src/network.cpp:81-90 | a netd that is so described by the old information is described by the new one after an update iff no routes clash |
| LinkSync.RunExact | services/netconnmanager/src/network.cpp:81-90 | over any run of updates netd agrees with the cache at every point iff no update has a clash |
| LinkSync.RunSound | services/netconnmanager/src/network.cpp:81-90 | clashes or not, over any run of updates netd's interface and resolver agree with the cache and netd has no route that the cache lacks |
| LinkSync.RunEnd | services/netconnmanager/src/network.cpp:181-200 | after any run, with or without clashes, netd has exactly the routes that were there or added and not removed at or after that |
| LinkSync.EndAgreesIff | services/netconnmanager/src/network.cpp:81-90 | after any run netd agrees with the cache iff the last event of every cached route was not a removal |
| LinkSync.PrefixChangeLosesRoute | frameworks/innerkitsimpl/netconnmanager/src/route.cpp:22-29 | a change of the prefix length alone removes the route from netd, because routes are compared whole and sent in part |
| Network.Network.constructor | services/netconnmanager/src/network.cpp:24-28 | a new network has empty link information and an open latch, and a cache exists for its id |
| Network.Network.NetworkConnect | services/netconnmanager/src/network.cpp:42-61 | an agreed connection sets both flags; a connected network succeeds without asking the supplier |
| Network.Network.NetworkDisconnect | services/netconnmanager/src/network.cpp:63-79 | the supplier is asked only if a flag is set; no flag changes |
| Network.Network.UpdateInterfaces | services/netconnmanager/src/network.cpp:166-179 | netd's interfaces lose the old name and gain the new one if they differ; other networks keep theirs |
| Network.Network.UpdateRoutes | services/netconnmanager/src/network.cpp:181-200 | netd's routes gain those that are new and then lose those that are gone |
| Network.Network.UpdateDnses | services/netconnmanager/src/network.cpp:202-213 | the resolver gets all servers and domains, in order |
| Network.Network.UpdateMtu | services/netconnmanager/src/network.cpp:215-222 | an mtu is set iff it differs from the cached one, whatever the interface |
| Network.Network.UpdateNetLinkInfo | services/netconnmanager/src/network.cpp:81-90 | the new information is cached, netd and the mtu are changed by the differences, and a netd that the old information describes field by field is described by the new one iff no routes clash |
| Network.Find | services/netconnmanager/src/network.cpp:185-186 | the search by Route::operator== is membership |
| ServiceStates.ConnectWords | services/netconnmanager/src/net_service.cpp:73-111 | in a reachable state, by the latch, the type and the answer: the word that a connect announces (nothing, IDLE CONNECTING READY, or IDLE CONNECTING FAILURE DISCONNECTED IDLE), and the state, latch and code it leaves |
| ServiceStates.DisconnectWords | services/netconnmanager/src/net_service.cpp:113-139 | a disconnect announces DISCONNECTING DISCONNECTED IDLE and leaves IDLE iff the network is connected and the supplier agrees, and else announces DISCONNECTING FAILURE and leaves FAILURE, with their codes |
| ServiceStates.StateIsSaid | services/netconnmanager/src/net_service.cpp:73-139 | in any state, a call leaves the service in the state it announced last |
| ServiceStates.RunTruthful | services/netconnmanager/src/net_service.cpp:172-188 | over any run the state of each service is the last it announced, and IDLE while it announced none |
| ServiceStates.InvPreserved | services/netconnmanager/src/net_service.cpp:73-139 | each call keeps: the two flags are equal, states are IDLE, READY or FAILURE, READY implies connected, and READY was announced once if connected and else never |
| ServiceStates.RunInv | services/netconnmanager/src/net_service.cpp:73-139 | so does any run of calls by services that come and go on one network; once connected, CONNECTING is never announced again |
| ServiceStates.NewSystemRuns | services/netconnmanager/src/net_service.cpp:73-139 | from a new network READY is announced exactly once if it is connected in the end and never otherwise, and every service is in the state it announced last |
| ServiceStates.ReconnectSucceeds | services/netconnmanager/src/net_conn_service.cpp:160-171 | in a reachable state a reconnection succeeds iff the network was never connected, the service is cellular and the supplier agrees; on a connected network it announces and leaves what a disconnect does |
| ServiceStates.FurtherSupplierDisconnects | services/netconnmanager/src/net_conn_service.cpp:135-171 | connecting a default service that is up changes nothing but does not report success, and the reconnection scheduled for that takes it down |
| NetService.CallbackHears | services/netconnmanager/src/net_service.cpp:292-299 | a registered callback hears exactly the announced states in order, others nothing |
| NetService.NotifiedInOrder | services/netconnmanager/src/net_service.cpp:292-299 | one announcement calls the callbacks in the order of their registration |
| NetService.OneMore | services/netconnmanager/src/net_service.cpp:190-207 | announcing one more state extends every callback's record by that state |
| NetService.NetService.constructor | services/netconnmanager/src/net_service.cpp:23-26 | a new service is idle and without callbacks |
| NetService.NetService.UpdateServiceState | services/netconnmanager/src/net_service.cpp:172-210 | the state is stored, UNKNOWN as FAILURE, and broadcast and announced as given |
| NetService.NetService.NotifyNetConnStateChanged | services/netconnmanager/src/net_service.cpp:292-299 | each callback is called once, in order |
| NetService.NetService.NetworkConnect | services/netconnmanager/src/net_service.cpp:147-159 | announces CONNECTING and reports the network's answer |
| NetService.NetService.NetworkDisConnect | services/netconnmanager/src/net_service.cpp:161-170 | reports the network's answer |
| NetService.NetService.ServiceConnect | services/netconnmanager/src/net_service.cpp:73-111 | code, state, latch and announced word of a connect, in every state; the state stays the last one broadcast |
| NetService.NetService.ServiceDisConnect | services/netconnmanager/src/net_service.cpp:113-139 | the same for a disconnect |
| NetService.NetService.RegisterNetConnCallback | services/netconnmanager/src/net_service.cpp:259-273 | adds a callback that is not null and not yet there; the list stays free of duplicates |
| NetService.NetService.UnregisterNetConnCallback | services/netconnmanager/src/net_service.cpp:275-290 | removes the first occurrence and keeps the order; the code tells what was found |
| Registry.FindSupplierMeans | services/netconnmanager/src/net_conn_service.cpp:400-411 | null iff no listed supplier has the id; otherwise one that has it |
| Registry.FindByNameMeans | services/netconnmanager/src/net_conn_service.cpp:385-398 | the same for type and ident |
| Registry.FindTogether | services/netconnmanager/src/net_conn_service.cpp:435-446 | where the lists correspond, a supplier is found iff a network is, and they belong together |
| Registry.CutTogether | services/netconnmanager/src/net_conn_service.cpp:413-433 | deleting by supplier id removes the same position from both lists |
| Registry.WithoutServiceCuts | services/netconnmanager/src/net_conn_service.cpp:461-476 | deleting by capability removes the first match and moves nothing else |
| Registry.OffNetworkFilters | services/netconnmanager/src/net_conn_service.cpp:448-459 | deleting by network treats every service on its own and keeps the order |
| Registry.ListedNetworksDiffer | services/netconnmanager/src/network.cpp:35-40 | listed networks are equal only if they are the same |
| Registry.UnregisterKeeps | services/netconnmanager/src/net_conn_service.cpp:190-192 | an unregistration keeps the correspondence of the lists and removes exactly the services of the supplier's network |
| Registry.RegisterKeeps | services/netconnmanager/src/net_conn_service.cpp:98-131 | appending a fresh supplier, its network and its services keeps the correspondence |
| Registry.CapsOfWord | services/netconnmanager/src/net_conn_service.cpp:112-127 | whatever the other bits of a capability word are, bit 0 asks for INTERNET and bit 1 for MMS, created in this order |
| Registry.ServicesOfWord | services/netconnmanager/src/net_conn_service.cpp:112-127 | a registration with a word creates services for exactly its two lowest bits |
| Registry.UpdatedToWord | services/netconnmanager/src/net_conn_service.cpp:333-353 | after an exact update with a word the network has services for exactly its two lowest bits |
| Registry.RegisterThenUnregister | services/netconnmanager/src/net_conn_service.cpp:81-197 | registering a fresh supplier and unregistering it restores all three lists |
| Registry.CapKeeps | services/netconnmanager/src/net_conn_service.cpp:333-353 | an update of one capability keeps the correspondence, whatever the net ids |
| Registry.CapExact | services/netconnmanager/src/net_conn_service.cpp:333-353 | under distinct net ids the network has the service iff it is wanted, its other service and other networks' services stay in order, and a repetition changes nothing |
| Registry.CapExactIff | services/netconnmanager/src/net_conn_service.cpp:333-342 | with any net ids, one step is exact iff the list is ready for it: asking, nothing is found or the network has its own service; clearing, nothing is found or the first found is on the network; a list that is ready and already as wanted does not change |
| Registry.CapsExactIff | services/netconnmanager/src/net_conn_service.cpp:333-353 | a whole update is exact iff the list is ready for both of its steps; a list that is ready and already as wanted does not change |
| Registry.CapRepeated | services/netconnmanager/src/net_conn_service.cpp:333-342 | with any net ids, repeating a step changes nothing iff it asks for the capability or at most one service was listed under the net id and capability |
| Registry.CapsUnchangedIff | services/netconnmanager/src/net_conn_service.cpp:333-353 | an update changes nothing iff for each capability a service is listed under the net id iff its bit is set; that holds after an update iff each capability cleared had at most one |
| Registry.CapsRepeated | services/netconnmanager/src/net_conn_service.cpp:333-353 | repeating an update changes nothing iff each capability cleared had at most one service under the net id |
| Registry.ClearedTwice | services/netconnmanager/src/net_conn_service.cpp:338-342 | of two networks with one net id, clearing INTERNET of the one listed first is exact, and clearing it again takes the service of the other |
| Registry.StepCounts | services/netconnmanager/src/net_conn_service.cpp:333-342 | how a step changes the number of services under a net id and capability, and when it changes nothing |
| Registry.MatchesMeans | services/netconnmanager/src/net_conn_service.cpp:478-492 | there is at least one iff the search succeeds |
| Registry.DistinctAreSingle | services/netconnmanager/src/net_conn_service.cpp:478-492 | where live net ids are distinct there is at most one |
| Registry.CapLeaves | services/netconnmanager/src/net_conn_service.cpp:333-353 | a step for one capability leaves what is found for the other, and can only take services from other networks |
| Registry.DistinctAreReady | services/netconnmanager/src/net_conn_service.cpp:333-353 | where live net ids are distinct the list is ready for every step |
| Registry.FirstServiceMeans | services/netconnmanager/src/net_conn_service.cpp:461-492 | the service that the search and the deletion meet first; none iff the search fails |
| Registry.FirstRemoved | services/netconnmanager/src/net_conn_service.cpp:461-476 | deleting the first match takes the network's only service of the capability if it is the network's, and else a service of another network |
| NetConnService.ModularIdsDiffer | services/netconnmanager/src/net_supplier.cpp:26-37 | supplier ids of fewer than 2^32 suppliers differ |
| NetConnService.NetConnService.constructor | services/netconnmanager/src/net_supplier.cpp:26-26 | a new registry is empty and counts from the first supplier id |
| NetConnService.NetConnService.GetNetSupplierFromListById | services/netconnmanager/src/net_conn_service.cpp:400-411 | the first supplier with the id |
| NetConnService.NetConnService.GetNetSupplierFromList | services/netconnmanager/src/net_conn_service.cpp:385-398 | the first supplier with the type and ident |
| NetConnService.NetConnService.GetNetworkFromListBySupplierId | services/netconnmanager/src/net_conn_service.cpp:435-446 | the first network of the supplier |
| NetConnService.NetConnService.IsServiceInList | services/netconnmanager/src/net_conn_service.cpp:478-492 | holds iff some service has the net id and capability |
| NetConnService.NetConnService.DeleteSupplierFromListById | services/netconnmanager/src/net_conn_service.cpp:413-422 | removes the first match and keeps the order |
| NetConnService.NetConnService.DeleteNetworkFromListBySupplierId | services/netconnmanager/src/net_conn_service.cpp:424-433 | removes the first match and keeps the order |
| NetConnService.NetConnService.DeleteServiceFromListByNet | services/netconnmanager/src/net_conn_service.cpp:448-459 | keeps exactly the services of other networks, in order |
| NetConnService.NetConnService.DeleteServiceFromListByCap | services/netconnmanager/src/net_conn_service.cpp:461-476 | removes the first match, and says whether there was one |
| NetConnService.NetConnService.RegisterNetSupplier | services/netconnmanager/src/net_conn_service.cpp:81-146 | a fresh valid supplier is appended with its network, net id, cache and services under the code 1003 plus the number of earlier ones, the default service is connected with the stated outcome, and a reconnection is scheduled unless that succeeds; a known one returns its id and an invalid type an error, both without any change; the registry invariant holds |
| NetConnService.NetConnService.RefusedMeans | services/netconnmanager/src/net_conn_service.cpp:87-90 | types 1 and 2, cellular and Ethernet, are all that is accepted |
| NetConnService.NetConnService.RegisterNew | services/netconnmanager/src/net_conn_service.cpp:98-131 | the same without the connect |
| NetConnService.NetConnService.Append | services/netconnmanager/src/net_conn_service.cpp:98-131 | the lists afterwards, entry by entry, and the default service |
| NetConnService.NetConnService.Enlist | services/netconnmanager/src/net_conn_service.cpp:112-131 | what is added behind each list |
| NetConnService.NetConnService.CreateNetwork | services/netconnmanager/src/network.cpp:24-28 | the n-th network, from 0, reserves id n, and MAX_NET_ID once the ids have run out, and has a cache created for it |
| NetConnService.NetConnService.CreateServices | services/netconnmanager/src/net_conn_service.cpp:112-127 | one service per requested capability; INTERNET becomes the default service |
| NetConnService.NetConnService.ConnectDefault | services/netconnmanager/src/net_conn_service.cpp:136-143 | the default service is connected; unless that reports success one more reconnection is scheduled |
| NetConnService.NetConnService.ReConnectService | services/netconnmanager/src/net_conn_service.cpp:160-171 | disconnects if connected or connecting, then connects; code, state, latch and broadcasts |
| NetConnService.DisconnectThenConnect | services/netconnmanager/src/net_conn_service.cpp:166-170 | the two calls one after the other: code, state, latch and broadcasts |
| NetConnService.NetConnService.UnregisterNetSupplier | services/netconnmanager/src/net_conn_service.cpp:173-197 | an unknown id changes nothing; otherwise supplier, network and its services go, and the branch without a network is unreachable below 2^32 suppliers |
| NetConnService.NetConnService.UpdateNetCapabilities | services/netconnmanager/src/net_conn_service.cpp:314-357 | the service list afterwards, for all net ids; the network has a service for INTERNET and MMS iff the bit is set and others keep theirs iff the list was ready; the call changes nothing iff nothing is to be done, and its repetition changes nothing iff each capability cleared had at most one service; while live net ids are distinct the list is ready and has at most one |
| NetConnService.NetConnService.UpdateCapability | services/netconnmanager/src/net_conn_service.cpp:333-342 | the same for one capability |
| NetConnService.DistinctIffFewLate | services/netconnmanager/src/net_id_manager.cpp:23-39 | live net ids are distinct iff at most one listed network has serial MAX_NET_ID or later; so they are up to MAX_NET_ID + 1 creations |
| NetConnService.NetConnService.LiveNetIdsDistinct | services/netconnmanager/src/net_id_manager.cpp:23-39 | the same for the lists of the registry |
| NetConnService.Serve | services/netconnmanager/src/net_conn_service.cpp:81-197 | after any run of requests the i-th network is the i-th supplier's, suppliers are distinct, every service fits its listed network, with one service for each network and capability, and live net ids are distinct iff at most one listed network is late |
| NetConnService.RegisterBriefly | services/netconnmanager/src/net_conn_service.cpp:81-197 | registering a fresh supplier and unregistering the code that was returned restores all three lists |
| NetConnService.RegisterAndUpdate | services/netconnmanager/src/net_conn_service.cpp:81-357 | after a registration with one word, and, under distinct net ids, after an update with another, the supplier's network has services for exactly the two lowest bits |
| NetConnService.FoundById | services/netconnmanager/src/net_conn_service.cpp:400-446 | a listed network and its supplier are found by the supplier's id |
| NetConnService.SharedNetId | services/netconnmanager/src/net_conn_service.cpp:81-146 | after MAX_NET_ID + 2 registrations two listed networks share an id, and an update that asks INTERNET of the second has no effect while only the first has it |
| NetConnService.ClearTwice | services/netconnmanager/src/net_conn_service.cpp:338-342 | after such a run with both offering INTERNET, clearing it of the first twice leaves neither with it |
| NetConnService.UseUpNetIds | services/netconnmanager/src/net_conn_service.cpp:81-146 | the run: MAX_NET_ID + 2 suppliers, all listed in order, with the services they offer |
| NetConnService.AskedInVain | services/netconnmanager/src/net_conn_service.cpp:333-337 | another network's service under the same net id hides that the network has none |
| Decimal.StolOfToString | services/netpolicymanager/src/net_policy_file.cpp:178-178 | stol of to_string is the identity on what a 64-bit long holds |
| Decimal.ToStringInjective | services/netpolicymanager/src/net_policy_file.cpp:189-189 | decimal strings are equal iff the numbers are |
| Decimal.DigitAt | services/netpolicymanager/src/net_policy_file.cpp:161-161 | the digits of a decimal string are those of the decimal system, the lowest last |
| PolicyStore.WriteThenLoad | services/netpolicymanager/src/net_policy_file.cpp:48-141 | writing any store and loading it into a fresh object gives the same entries in order minus exactly the temporary ones; an empty version becomes 1.0 |
| PolicyStore.FirstEntry | services/netpolicymanager/src/net_policy_file.cpp:145-195 | on any list, canonical or not, updates, removals and the comparing lookup are about the first entry of the uid and move nothing else |
| PolicyStore.ParsedLookup | services/netpolicymanager/src/net_policy_file.cpp:174-184 | on rendered stores the parsing lookup finds exactly the uids present |
| PolicyStore.ComparedLookup | services/netpolicymanager/src/net_policy_file.cpp:186-195 | on canonical stores the comparing lookup gives the policy of the map, NONE if absent |
| PolicyStore.LookupsAgree | services/netpolicymanager/src/net_policy_file.cpp:174-195 | on canonical stores both lookups agree and neither throws |
| PolicyStore.SetOnCanonical | services/netpolicymanager/src/net_policy_service.cpp:82-97 | setting any policy on a canonical store: the entries and the code |
| PolicyStore.SetMeans | services/netpolicymanager/src/net_policy_service.cpp:82-97 | a set is a map update: the uid gets a valid policy, NONE removes it, an invalid one and all other uids change nothing; the store stays canonical |
| PolicyStore.KeptMeans | services/netpolicymanager/src/net_policy_file.cpp:128-132 | what is written is canonical and drops exactly the temporary policies |
| PolicyStore.UidsOfCanonical | services/netpolicymanager/src/net_policy_file.cpp:197-207 | on rendered stores GetUids gives the uids with the policy, in order, and never throws |
| PolicyStore.UidsExactlyOnce | services/netpolicymanager/src/net_policy_file.cpp:197-207 | on canonical stores GetUids has each uid with the policy exactly once, and no other |
| PolicyStore.SetKeeps | services/netpolicymanager/src/net_policy_service.cpp:82-97 | one set, with a write that succeeds or fails, keeps memory and file canonical |
| PolicyStore.RunRefinesMap | services/netpolicymanager/src/net_policy_service.cpp:82-115 | over any run of sets and restarts, with any writes failing, the vector of strings is the map of the run, in the numbers of the policies, and nothing throws |
| PolicyStore.AnswersAfterRun | services/netpolicymanager/src/net_policy_service.cpp:99-115 | after any run GetUidPolicy, IsUidPolicyExist and GetUids answer as the map does |
| PolicyStore.AccessOfPolicy | services/netpolicymanager/src/net_policy_service.cpp:117-148 | access is refused exactly for the policies 4 and 64, that is REJECT_METERED_BACKGROUND and REJECT_ALL |
| PolicyStore.AccessAfterRun | services/netpolicymanager/src/net_policy_service.cpp:117-148 | from a fresh installation, after any run, access is refused exactly when the policy that survived the run rejects |
| NetPolicy.NetPolicyFile.Json2Obj | services/netpolicymanager/src/net_policy_file.cpp:60-75 | the parsed entries are appended to the object and the version set; if the library throws, exactly what had been read until then stays |
| NetPolicy.NetPolicyFile.ReadEntries | services/netpolicymanager/src/net_policy_file.cpp:68-72 | the entries up to the first that cannot be read are appended |
| NetPolicy.NetPolicyFile.InitPolicy | services/netpolicymanager/src/net_policy_file.cpp:209-223 | each case of the file; on a fresh object it is a restart |
| NetPolicy.NetPolicyFile.WriteFile | services/netpolicymanager/src/net_policy_file.cpp:105-141 | the file holds the version and the entries that are not temporary, in order; no array if there are none; nothing changes if it cannot be opened |
| NetPolicy.NetPolicyFile.UpdateEntry | services/netpolicymanager/src/net_policy_file.cpp:145-151 | the first entry of the uid gets the policy |
| NetPolicy.NetPolicyFile.EraseEntry | services/netpolicymanager/src/net_policy_file.cpp:152-158 | the first entry of the uid goes |
| NetPolicy.NetPolicyFile.EditAndWrite | services/netpolicymanager/src/net_policy_file.cpp:143-172 | the edit and the write; a failed write leaves the edit in memory |
| NetPolicy.NetPolicyFile.IsUidPolicyExist | services/netpolicymanager/src/net_policy_file.cpp:174-184 | the parsing lookup on any entries, with the exception of stol |
| NetPolicy.NetPolicyFile.GetUidPolicy | services/netpolicymanager/src/net_policy_file.cpp:186-195 | the comparing lookup on any entries |
| NetPolicy.NetPolicyFile.GetUids | services/netpolicymanager/src/net_policy_file.cpp:197-207 | appends the uids with the policy in order |
| NetPolicy.NetPolicyTraffic.Edit | services/netpolicymanager/src/net_policy_traffic.cpp:49-107 | an invalid policy changes nothing; otherwise the operation is carried out and the code tells whether the write succeeded |
| NetPolicy.NetPolicyService.SetUidPolicy | services/netpolicymanager/src/net_policy_service.cpp:82-97 | is one step of the run of RunRefinesMap |
| NetPolicy.NetPolicyService.IsUidNetAccess | services/netpolicymanager/src/net_policy_service.cpp:117-132 | the answer of AccessOfPolicy on any entries |
| ParcelFormat.AddrCodec | frameworks/innerkitsimpl/netconnmanager/src/inet_addr.cpp:34-83 | decoding an encoded address followed by anything gives the address and leaves the rest; whatever decodes was so encoded |
| ParcelFormat.RouteCodec | frameworks/innerkitsimpl/netconnmanager/src/route.cpp:31-70 | the same for routes |
| ParcelFormat.ListInverts | frameworks/innerkitsimpl/netconnmanager/src/net_link_info.cpp:75-87 | a list below 2^32 elements behind its length is read back, for every element codec that inverts |
| ParcelFormat.ListExact | frameworks/innerkitsimpl/netconnmanager/src/net_link_info.cpp:75-87 | what decodes as a list was its encoding, for every exact element codec |
| ParcelFormat.LinkInfoInverts | frameworks/innerkitsimpl/netconnmanager/src/net_link_info.cpp:22-115 | an encoded NetLinkInfo with lists below 2^32 is read back, leaving exactly what follows |
| ParcelFormat.LinkInfoExact | frameworks/innerkitsimpl/netconnmanager/src/net_link_info.cpp:63-115 | the cells consumed are exactly the encoding of the result |
| ParcelFormat.LinkInfoRoundTrip | frameworks/innerkitsimpl/netconnmanager/src/net_link_info.cpp:22-115 | a NetLinkInfo survives the round trip iff its lists are below 2^32 |
| ParcelFormat.StaticInverts | frameworks/innerkitsimpl/ethernetmanager/src/static_configuration.cpp:22-103 | the same for a StaticConfiguration |
| ParcelFormat.StaticExact | frameworks/innerkitsimpl/ethernetmanager/src/static_configuration.cpp:57-103 | the cells consumed are exactly the encoding of the result |
| ParcelFormat.StaticRoundTrip | frameworks/innerkitsimpl/ethernetmanager/src/static_configuration.cpp:22-103 | a StaticConfiguration survives the round trip iff its list is below 2^32 |
| ResolverFormat.ConfigRoundTrip | services/dnsresolvermanager/src/ipc/dns_resolver_service_stub.cpp:147-188 | the arguments of SetResolverConfig reach the stub unchanged iff both lists are below 2^31 |
| ResolverFormat.InfoRoundTrip | services/dnsresolvermanager/src/ipc/dns_resolver_service_proxy.cpp:263-291 | the reply of GetResolverInfo reaches the proxy unchanged iff both lists are below 2^31 |
| ResolverFormat.StringsExactIff | services/dnsresolvermanager/src/ipc/dns_resolver_service_stub.cpp:164-176 | what decodes as a list of strings was its encoding iff its count is not negative |
| ResolverFormat.ConfigExactIff | services/dnsresolvermanager/src/ipc/dns_resolver_service_stub.cpp:155-188 | the cells the arguments are read from are their encoding iff both counts are not negative |
| ResolverFormat.NegativeCount | services/dnsresolvermanager/src/ipc/dns_resolver_service_stub.cpp:164-170 | cells with count -1 that decode as empty lists and are not what encodes them |
| ResolverFormat.InfoExactIff | services/dnsresolvermanager/src/ipc/dns_resolver_service_proxy.cpp:263-291 | the cells the reply is read from are its encoding iff both counts are not negative and the last cell is there |
| Parcels.PartWritten | frameworks/innerkitsimpl/netconnmanager/src/net_link_info.cpp:24-60 | a write that fails part-way leaves exactly the prefix that fitted |
| Parcels.MarshalAddr | frameworks/innerkitsimpl/netconnmanager/src/inet_addr.cpp:34-55 | writes the encoding, or the prefix that fits and fails |
| Parcels.MarshalRoute | frameworks/innerkitsimpl/netconnmanager/src/route.cpp:31-45 | the same for a route |
| ParcelCodecs.MarshalAddrList | frameworks/innerkitsimpl/netconnmanager/src/net_link_info.cpp:30-38 | the same for a list of addresses behind its length |
| ParcelCodecs.MarshalRouteList | frameworks/innerkitsimpl/netconnmanager/src/net_link_info.cpp:48-56 | the same for a list of routes |
| ParcelCodecs.MarshalLists | frameworks/innerkitsimpl/netconnmanager/src/net_link_info.cpp:30-56 | the three lists in their order |
| ParcelCodecs.MarshalLinkInfo | frameworks/innerkitsimpl/netconnmanager/src/net_link_info.cpp:22-61 | the member function writes the encoding, or the prefix that fits and fails |
| ParcelCodecs.MarshalLinkInfoObject | frameworks/innerkitsimpl/netconnmanager/src/net_link_info.cpp:117-160 | the static function writes the same cells; nothing for a null object |
| ParcelCodecs.MarshalStatic | frameworks/innerkitsimpl/ethernetmanager/src/static_configuration.cpp:22-55 | writes the encoding, or the prefix that fits and fails |
| ParcelCodecs.UnmarshalAddr | frameworks/innerkitsimpl/netconnmanager/src/inet_addr.cpp:57-83 | result and cursor are those of the decoder, whose inverse is AddrCodec; null iff it fails |
| ParcelCodecs.UnmarshalRoute | frameworks/innerkitsimpl/netconnmanager/src/route.cpp:47-70 | the same for RouteCodec |
| ParcelCodecs.UnmarshalAddrList | frameworks/innerkitsimpl/netconnmanager/src/net_link_info.cpp:75-87 | the same for a list of addresses |
| ParcelCodecs.UnmarshalRouteList | frameworks/innerkitsimpl/netconnmanager/src/net_link_info.cpp:99-110 | the same for a list of routes |
| ParcelCodecs.UnmarshalLinkInfo | frameworks/innerkitsimpl/netconnmanager/src/net_link_info.cpp:63-115 | the same for LinkInfoRoundTrip |
| ParcelCodecs.UnmarshalStatic | frameworks/innerkitsimpl/ethernetmanager/src/static_configuration.cpp:57-103 | the same for StaticRoundTrip |
| ParcelCodecs.MarshalStrings | services/dnsresolvermanager/src/ipc/dns_resolver_service_proxy.cpp:208-216 | a list of strings behind its signed 32-bit count |
| ParcelCodecs.UnmarshalStrings | services/dnsresolvermanager/src/ipc/dns_resolver_service_stub.cpp:164-176 | result and cursor are those of the decoder; a negative count reads as an empty list |
| ParcelCodecs.EncodeConfig | services/dnsresolvermanager/src/ipc/dns_resolver_service_proxy.cpp:199-225 | the arguments in the order of the proxy |
| ParcelCodecs.DecodeConfig | services/dnsresolvermanager/src/ipc/dns_resolver_service_stub.cpp:155-188 | result and cursor are those of the decoder of ConfigRoundTrip |
| ParcelCodecs.EncodeInfo | services/dnsresolvermanager/src/ipc/dns_resolver_service_stub.cpp:208-238 | the reply in the order of the stub |
| ParcelCodecs.DecodeInfo | services/dnsresolvermanager/src/ipc/dns_resolver_service_proxy.cpp:263-291 | the result of the decoder of InfoRoundTrip; the last, unchecked read gives 0 when its cell is missing |
| TimerProtocol.InvPreserved | services/common/include/timer.h:46-87 | every step of the controller and of every worker, spurious wakeups included, keeps the timer invariant |
| TimerProtocol.TimerSafety | services/common/include/timer.h:46-87 | at most one periodic worker is before its final write; stopStatus_ is false exactly while one is; a sleeping Stop is never left un-notified with stopStatus_ true; after Stop returns no worker is left until the next Start, so no task runs and nobody touches the timer |
| TimerProtocol.StartStarts | services/common/include/timer.h:46-63 | from any reachable state in which the timer has stopped, Start takes three steps and leaves one worker in its loop and both flags cleared |
| TimerProtocol.OnlyStartMoves | services/common/include/timer.h:46-63 | meanwhile nothing else can take a step |
| TimerProtocol.StartOnRunning | services/common/include/timer.h:48-50 | Start on a running timer starts nothing |
| TimerProtocol.WorkerRunsTask | services/common/include/timer.h:54-57 | in every reachable state a worker in its loop goes on to its task and comes back to its loop, unless Stop waits for it |
| TimerProtocol.WorkerMeans | services/common/include/timer.h:54-87 | while a worker exists Stop has not returned, its wait does not find the timer stopped, and Start starts no other worker |
| TimerProtocol.StopIsNotStuck | services/common/include/timer.h:75-87 | in every reachable state a waiting Stop has somebody who can take a step without a spurious wakeup |
| TimerProtocol.RankLowers | services/common/include/timer.h:53-87 | while Stop waits, each step of the worker or of Stop lowers a rank, a spurious wakeup raises it by two, and the wait ends only by returning |
| TimerProtocol.StopReturns | services/common/include/timer.h:75-87 | Stop goes on waiting for at most 23 steps of the worker and of itself, and two more for each spurious wakeup |
| IpData.MemLessIsNumeric | prebuilts/librarys/netd/include/common/include/net_utils.h:111-118 | byte-lexicographic order is numeric order of the big-endian values, for equal lengths |
| IpData.WordIsNumeric | prebuilts/librarys/netd/include/common/include/net_utils.h:104-110 | the byte-swapped word is the big-endian value of its four bytes |
| IpData.LessByKey | prebuilts/librarys/netd/include/common/include/net_utils.h:64-127 | the order is lexicographic on family, numeric address, prefix length, port and scope, for every family; equality is equality of these on the known families |
| IpData.StrictTotalOrder | prebuilts/librarys/netd/include/common/include/net_utils.h:64-127 | irreflexive, transitive, and trichotomous on the known families; `==` is reflexive exactly there |
| IpData.AtMostTotal | prebuilts/librarys/netd/include/common/include/net_utils.h:202-225 | on the known families at-most is total, transitive, and antisymmetric up to `==` |
| EthernetModel.LinkEventBalance | services/ethernetmanager/src/ethernet_management.cpp:79-106 | a link event starts or stops the DHCP client exactly when it flips the request flag |
| EthernetModel.ActionBalance | services/ethernetmanager/src/ethernet_management.cpp:63-139 | nothing else starts or stops it, and no action sends link information while unavailable |
| EthernetModel.LinkEventDhcp | services/ethernetmanager/src/ethernet_management.cpp:72-106 | with lowerUp the DHCP client is started iff the configuration asks for DHCP and no request is pending, without it stopped iff one is; a DHCP device then has a request pending iff lowerUp, a static one keeps its flag; when link information is sent, and what |
| EthernetModel.LinkEventOrder | services/ethernetmanager/src/ethernet_management.cpp:79-106 | the stop comes before the supplier info, and the start or the link info after it |
| EthernetModel.LastLinkEventDecides | services/ethernetmanager/src/ethernet_management.cpp:63-139 | over any run, from its last link event on, a device that was configured for DHCP then has a request pending iff lowerUp was reported |
| EthernetModel.FlagsStay | services/ethernetmanager/src/ethernet_management.cpp:63-139 | nothing but a link event changes the request flag or the link flags of a device |
| EthernetModel.ConfigEffect | services/ethernetmanager/src/dev_interface_state.cpp:63-73 | a configuration is refused while the link is down; a static one brings its address, its route from destination to gate and its servers, sets the address, and is sent iff the device is available |
| EthernetModel.DhcpEffect | services/ethernetmanager/src/dev_interface_state.cpp:203-245 | a DHCP result is refused while the link is down; it brings its address and, behind the old ones, its two servers in order, and is sent unless the device is unavailable |
| EthernetModel.RegistrationEffect | services/ethernetmanager/src/dev_interface_state.cpp:128-152 | a registration succeeds iff the id is above 1000, and keeps the id either way; an accepted unregistration resets it |
| EthernetModel.InvPreserved | services/ethernetmanager/src/ethernet_management.cpp:63-139 | each action on any device keeps the invariant of all devices |
| EthernetModel.RunInv | services/ethernetmanager/src/ethernet_management.cpp:63-139 | so does every run of link events, configurations, DHCP results, registrations and unregistrations |
| EthernetModel.FreshRuns | services/ethernetmanager/src/ethernet_management.cpp:63-139 | from unregistered devices that have asked for nothing, for each of them DHCP starts minus stops is 1 if a request is pending and else 0, and no link information was sent by an unavailable device |
| EthernetModel.InitRuns | services/ethernetmanager/src/ethernet_management.cpp:187-220 | from the start of the service, with any interfaces listed and any ids answered, after Init and any run the devices are the named interfaces, and DHCP balance, silence while unavailable and known senders hold |
| EthernetModel.InitInv | services/ethernetmanager/src/ethernet_management.cpp:196-218 | Init leaves one device for each named interface, in a state that satisfies the invariants |
| EthernetModel.InitDeviceInv | services/ethernetmanager/src/ethernet_management.cpp:202-217 | what Init does to one device starts no DHCP client, sends no link information, and satisfies the invariant of a device |
| EthernetModel.InitDeviceMeans | services/ethernetmanager/src/ethernet_management.cpp:202-217 | name, link flags, id, link state and announcement of a device after Init |
| EthernetModel.FlagBits | services/ethernetmanager/src/ethernet_management.cpp:180-181 | whatever the other bits are, bit 0 of the flags is up and bit 16 is lowerUp |
| EthernetModel.InitialConfigNameless | services/ethernetmanager/src/ethernet_management.cpp:204-210 | the first configuration is applied to the empty interface name |
| EthernetModel.SenderRegistered | services/ethernetmanager/src/dev_interface_state.cpp:128-165 | an action sends link information under a registered id iff the device was registered before it; the id tells the registration in every state |
| EthernetModel.UnregisteredSends | services/ethernetmanager/src/dev_interface_state.cpp:154-165 | an unregistered device whose link is up answers a DHCP result by sending under an id not above the minimum |
| EthernetModel.RunSenders | services/ethernetmanager/src/dev_interface_state.cpp:128-165 | over any run, what was sent under an unregistered id was sent by an unregistered device, and the reverse |
| EthernetModel.LinkEventEffect | services/ethernetmanager/src/dev_interface_state.cpp:167-179 | after a link event a registered device is available iff both flags are up, and that value has been sent |
| EthernetModel.DhcpRoutesMean | services/ethernetmanager/src/dev_interface_state.cpp:215-240 | a DHCP result brings, in order, one route for each router that is not the server, through the server, with `*` as 0.0.0.0 and nothing else set; older routes are gone |
| EthernetModel.RepeatedResult | services/ethernetmanager/src/dev_interface_state.cpp:203-245 | a repeated DHCP result keeps addresses and routes and repeats the DNS servers |
| Ethernet.DevInterfaceState.constructor | services/ethernetmanager/src/dev_interface_state.cpp:26-29 | a new device is unregistered, down and without configuration |
| Ethernet.DevInterfaceState.UpdateSupplierAvailable | services/ethernetmanager/src/dev_interface_state.cpp:252-261 | available iff both flags are up |
| Ethernet.DevInterfaceState.RemoteUpdateNetSupplierInfo | services/ethernetmanager/src/dev_interface_state.cpp:167-179 | nothing while unregistered; otherwise the state is updated and sent |
| Ethernet.DevInterfaceState.RemoteUpdateNetLinkInfo | services/ethernetmanager/src/dev_interface_state.cpp:154-165 | sends the link information if there is any and the device is not unavailable |
| Ethernet.DevInterfaceState.RemoteRegisterNetSupplier | services/ethernetmanager/src/dev_interface_state.cpp:128-139 | registers an unregistered device if the id given is above the minimum |
| Ethernet.DevInterfaceState.RemoteUnregisterNetSupplier | services/ethernetmanager/src/dev_interface_state.cpp:141-152 | unregisters if the service accepts |
| Ethernet.DevInterfaceState.SetIfcfg | services/ethernetmanager/src/dev_interface_state.cpp:63-73 | stores the configuration; a static one replaces the link information, sets the address and is sent if the device is available |
| Ethernet.DevInterfaceState.UpdateLinkInfo | services/ethernetmanager/src/dev_interface_state.cpp:203-245 | addresses and routes become those of the DHCP result; its DNS servers are added behind the old ones |
| Ethernet.EthernetManagement.Init | services/ethernetmanager/src/ethernet_management.cpp:187-220 | is InitAll of InitRuns on the devices it has |
| Ethernet.EthernetManagement.InitInterface | services/ethernetmanager/src/ethernet_management.cpp:197-217 | one round of it; a nameless interface is skipped, and of two with one name the first stays |
| Ethernet.EthernetManagement.InitDevState | services/ethernetmanager/src/ethernet_management.cpp:202-217 | state and events of one new device |
| Ethernet.EthernetManagement.Handle | services/ethernetmanager/src/ethernet_management.cpp:178-185 | is the action LinkChanged with the flags IFF_UP and IFF_LOWER_UP of the event |
| Ethernet.EthernetManagement.UpdateInterfaceState | services/ethernetmanager/src/ethernet_management.cpp:63-107 | is the action LinkChanged of the run of RunInv; an unknown device is ignored and no other device changes |
| Ethernet.EthernetManagement.ApplyLinkState | services/ethernetmanager/src/ethernet_management.cpp:73-106 | state and events of the device that was found |
| Ethernet.EthernetManagement.UpdateDevInterfaceState | services/ethernetmanager/src/ethernet_management.cpp:109-122 | is the action Configured; refused for an unknown device or a link that is down |
| Ethernet.EthernetManagement.UpdateDevInterfaceLinkInfo | services/ethernetmanager/src/ethernet_management.cpp:124-139 | is the action DhcpAnswered; refused likewise |

## Left out

Weaker than the source, or assumed:

- BlockingQueue.BlockingQueue.IsFull: not for capacity 2^32 - 1, where the divisor wraps to zero; the same for PushUnlessFull.
- QueueProtocol.NoLostWakeup: not for capacity 2^32 - 1, where the test divides by zero; safety and the absence of stuck states only: no fairness of the scheduler, so no claim that every call returns.
- NetConnService.Serve: the correspondence of the lists is claimed for up to 2^32 requests, since supplier ids wrap after 2^32 suppliers.
- NetConnService.NetConnService.ConnectDefault: the scheduled reconnection is counted, not timed; its task is ReConnectService, which a run may contain at any place.
- NetConnService.NetConnService.CreateNetwork: a network's cache is created, but its removal, which happens when the last reference to the network goes, is not modelled.
- PolicyStore.WriteThenLoad: the JSON library is a value tree; a number or boolean is the text that asString makes of it.
- NetlinkWire.ParserInvertsSerialiser: a little-endian host; total size below 2^31, as the signed length demands.
- NetLinkRtnl.FillAttributeTable: bytes behind the received data read as zero, because both callers clear the buffer first (services/ethernetmanager/src/netLink_rtnl.cpp:140, 226); what lies beyond the buffer itself is not modelled. A link message shorter than 32 bytes takes its type and flags from the bytes behind it. IFLA_MAX is taken from the Linux headers, where only its being at least IFLA_IFNAME matters.
- Network.Network.UpdateNetLinkInfo: calls to netd succeed and have the effect of adding to or removing from a set; no claim that netd's mtu agrees with the cache, since an interface change with an equal mtu sends none.
- TimerProtocol.StopReturns: counts steps; a step of the worker includes its sleep and its task, which are taken to end.
- TimerProtocol.TimerSafety: one controlling thread, distinct from the periodic worker; StartOnce, which leaves the flags alone, and copying a timer are not part of it.
- Ethernet.EthernetManagement.UpdateInterfaceState: the wait of GetDhcpResult is not modelled; its answer arrives as an action of its own.

Not modelled:

- The answers of suppliers, whether files open, and the ids the connection service hands to devices are parameters, not computed.
- The setters of identification fields (ident, type, capability, network) have no callers; those fields are constants here.
- UpdateNetSupplierInfo, UpdateNetLinkInfo and the callback requests of the connection service, which only look up and delegate.
- Hardware addresses of devices.
- Sockets, select, ioctl, broadcasts, telephony, locks that only serialise whole calls, logging, printers, error-code conversion.
- JavaScript bindings, IPC plumbing around the codecs, and the flat codecs (InterfaceConfiguration, NetSpecifier, NetSupplierInfo, NetConnCallbackInfo, DnsAddrInfo), which would add easy members only.
- Host name checks and addrinfo lists of the DNS resolver; the declarations in the prebuilt netd headers whose bodies are not shown.
