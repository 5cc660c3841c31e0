# Virtual NIC and network driver model

A Dafny model of a teaching set of Linux network drivers and the simulated
NIC they run on. Each part is modelled as immutable state with pure step
functions. Calls into the kernel or into the NIC layer become entries in an
event log kept in the state. These calls are napi_enable, napi_schedule,
napi_gro_receive, dev_kfree_skb, handler invocation and nic_* calls.

- **Ring** is the circular descriptor ring: N buffer slots, a producer index
  and a consumer index, with one slot always kept free. The ring is
  abstracted to the FIFO queue its live slots hold. Put and Take are proved
  to append to and pop from that queue.
- **Nic** is the simulated NIC engine of `P04_vnic/nic.c`. It has two rings
  of 1024 descriptors, the ready and interrupt-enable flags, and the
  registered handler. It also has the far end's side: `nic_start_xmit`
  delivers to the driver, and `nic_poll` drains what the driver sent.
- **NicFifo** proves that both rings are FIFOs over any interleaving of
  the engine's transmit, receive, poll, interrupt, handler and
  init/shutdown entry points.
- **NicTodo** models the two ring accesses as literally written. They are
  placeholders that use slot 0, and NicTodo shows how each one breaks the
  ring (see Findings).
- **EndDriver** is the driver upper half of `P07_et/ethtooled_network_driver.c`,
  run against the engine. It covers open and close sequencing, transmit
  accounting, the interrupt handler and the budgeted NAPI poll.
- **NdDriver** is the PCI driver upper half of `P06_pn/network_driver.c`.
  Its NIC layer is per-card stubs, so the driver is modelled against the
  interface alone. Its open, close, handler, transmit accounting and poll
  are proved to make the same calls and keep the same statistics as
  EndDriver's.
- **Loopback** is the one-slot loopback driver of
  `P03_ndo/lb_network_driver.c`.
- **Classifier** is the header-walk classifier `parse_pkt`, in
  `P01_pp/packet_parser.c` and again in `Apps/net_ops.c`.
- **NetOps** is the test-frame builder `prepare_pkt` of `Apps/net_ops.c`.

Behaviour of the source worth noting:

- `nic_hw_rx_pkt` does not check the ready flag. It returns whatever the
  receive ring holds even after `nic_hw_shut` (`Nic.ShutRefusesTraffic`).
- Readiness is a plain boolean. There is no separate shutting-down state.
- `nic_poll` takes at most one packet per call and always reports one unit
  of work. It does not drain up to the budget.
- `nic_setup_buffers` clears the slots without releasing buffers still
  in them.
- Two deliveries to an armed ring driver invoke its handler once: the
  first invocation disables interrupts, so the second delivery is queued
  without reaching the handler (`EndDriver.EdgeTriggered`).

## Model

| member | source | states |
|---|---|---|
| Ring.Next | P04_vnic/nic.c:427 | The next index is i + 1, wrapping to 0 at N. |
| Ring.Count | P04_vnic/nic.c:40 | The occupancy formula (prod - cons + N) % N is the forward distance from consumer to producer, and it is below N. |
| Ring.EmptyFullIffCount | P04_vnic/nic.c:34-47 | prod == cons holds exactly when the count is 0. The full test ((cons - (prod + 1) + N) % N == 0) holds exactly when the count is N - 1. |
| Ring.Contents | P04_vnic/nic.c:34-51 | The k-th oldest queued packet sits in slot (cons + k) % N, and the queue length is the count. |
| Ring.Empty | P04_vnic/nic.c:321-330 | A ring with every slot NULL and both indices 0 is valid and holds the empty queue. |
| Ring.Put | P04_vnic/nic.c:185-186 | Storing at the producer index and advancing it keeps the ring valid and appends the packet to the queue. |
| Ring.Take | P04_vnic/nic.c:226-228 | Reading and clearing the consumer slot and advancing the index keeps the ring valid. It returns the queue's head and leaves the queue's tail. |
| Ring.Drain | P04_vnic/nic.c:340-347 | The cleanup loop releases exactly the queued packets, oldest first, and leaves an all-NULL ring with both indices 0. |
| Nic.Initial | P04_vnic/nic.c:267-290 | The freshly loaded engine has empty rings, is not ready, has interrupts off and has no handler. |
| Nic.AtMostOneLessThanCapacity | P04_vnic/nic.c:38 | Either ring holds at most N - 1 packets. |
| Nic.SetupBuffers | P04_vnic/nic.c:314-332 | Every slot becomes NULL, all four indices become 0, both queues are empty, and nothing else changes. |
| Nic.CleanupBuffers | P04_vnic/nic.c:333-357 | Every packet left in the transmit ring, then every packet left in the receive ring, is freed in queue order. Both rings end empty with indices 0. |
| Nic.RegisterHandler | P04_vnic/nic.c:358-367 | Handler and parameter are replaced together. The rest of the engine is unchanged. |
| Nic.UnregisterHandler | P04_vnic/nic.c:368-377 | Handler and parameter are both cleared. The rest is unchanged. |
| Nic.EnableIntr | P04_vnic/nic.c:379-394 | Interrupts become enabled. No handler is invoked and nothing else changes. |
| Nic.DisableIntr | P04_vnic/nic.c:395-400 | Interrupts become disabled and nothing else changes. |
| Nic.HwInit | P04_vnic/nic.c:401-407 | The engine becomes ready with interrupts enabled. Rings and handler are untouched. |
| Nic.HwShut | P04_vnic/nic.c:408-414 | Interrupts become disabled and the engine not ready. Rings and handler are untouched. |
| Nic.HwShutIdempotent | P04_vnic/nic.c:408-414 | Shutting down twice equals shutting down once. |
| Nic.HwTxPkt | P04_vnic/nic.c:416-438 | Returns 0 exactly when ready and the transmit queue is below N - 1. The packet is then appended at tx_drv and the far end's poll is scheduled. Otherwise returns -1 and nothing changes. |
| Nic.HwRxPkt | P04_vnic/nic.c:439-455 | Returns NULL exactly when rx_drv == rx_nic, that is, when the receive queue is empty, and then nothing changes. Otherwise it returns the queue's head, clears its slot and advances rx_drv. The ready flag is not consulted. |
| Nic.StartXmit | P04_vnic/nic.c:173-202 | Accepted exactly when ready and the receive ring is not full. The packet is then appended, the far end counts tx packets and bytes, and the handler is invoked with its parameter exactly when interrupts are enabled and a handler is registered. Otherwise the far end counts a drop and frees the buffer, and no handler runs. |
| Nic.Poll | P04_vnic/nic.c:212-257 | Takes the transmit queue's head, if any, and hands it to the far end's stack with rx counters raised. On an empty ring it counts one rx error. Work done is always 1, and NAPI completes exactly when 1 < budget. |
| Nic.ShutRefusesTraffic | P04_vnic/nic.c:182-183 | After shutdown both transmit paths refuse and no handler runs, while the driver's receive still returns what the ring holds. |
| Nic.HandlerNeedsArming | P04_vnic/nic.c:189-192 | The handler runs only if the engine is ready, interrupts are enabled and a handler is registered, so never after disable or unregister. |
| NicFifo.Step | P04_vnic/nic.c:416-455 | For each engine entry point, old queue plus packets accepted equals packets taken plus new queue, on both rings. |
| NicFifo.StepIsEngineCall | P04_vnic/nic.c:173-257 | A step leaves the state the engine call leaves. nic_hw_tx_pkt and nic_start_xmit record the packet as entering exactly when they accept it. nic_hw_rx_pkt records the packet it returns as leaving, and nic_poll the transmit queue's head. The init, shutdown, interrupt and handler calls move no packet. |
| NicFifo.Run | P04_vnic/nic.c:185-186 | Over any sequence of the modelled entry points, each ring's prior contents followed by everything accepted equals everything taken followed by the final contents. Nothing is lost, duplicated or reordered. |
| NicFifo.RunOne | P04_vnic/nic.c:173-257 | A run of one call is that call's step. |
| NicFifo.RunAppend | P04_vnic/nic.c:173-257 | Running two stretches of calls in turn equals running their concatenation. The final state is the same, and the flow is the first stretch's followed by the second's. |
| NicFifo.OutputIsPrefixOfInput | P04_vnic/nic.c:226-228 | From empty rings, what the far end's poll and the driver's receive take out is a prefix of what was put in, in order. |
| NicTodo.HwTxPktAsWritten | P04_vnic/nic.c:416-438 | Succeeds exactly when the NIC is ready and the ring is not full. On success the packet lands in slot 0 and tx_drv advances modulo the ring size; on failure nothing changes. |
| NicTodo.HwRxPktAsWritten | P04_vnic/nic.c:439-455 | On an empty ring it returns NULL and changes nothing. Otherwise it returns the slot at rx_drv and advances rx_drv modulo the ring size, but clears slot 0. |
| NicTodo.Opened | P04_vnic/nic.c:401-407 | A NIC after buffer setup and init is valid, ready and empty, with both tx indices 0 and every tx slot NULL. |
| NicTodo.TxPlaceholderLosesPacket | P04_vnic/nic.c:426 | Two transmissions as written leave the first packet in no slot and break the live-slot invariant. The engine queues both in order. |
| NicTodo.RxPlaceholderLeavesStaleSlot | P04_vnic/nic.c:449 | Two receives as written leave a delivered buffer in slot 1 of an empty ring. The engine leaves every slot empty. |
| EndDriver.Handler | P07_et/ethtooled_network_driver.c:114-120 | The handler disables NIC interrupts, then schedules the poll, and changes nothing else. |
| EndDriver.Open | P07_et/ethtooled_network_driver.c:122-132 | Buffers are set up, then NAPI enabled, then the handler registered with the private area, then the NIC initialised. The result is ready, armed and empty. |
| EndDriver.Close | P07_et/ethtooled_network_driver.c:133-145 | Shut, unregister, NAPI disable and buffer cleanup happen in that order. All buffers left in both rings are freed. Both rings end all-NULL with all four indices at 0, and the engine's own counters are unchanged. The driver statistics are zeroed. |
| EndDriver.StartXmit | P07_et/ethtooled_network_driver.c:146-164 | When the NIC accepts, the packet is queued and tx packets and bytes are counted. The engine then differs only in its transmit ring and in the far end's NAPI schedule. Otherwise the NIC is unchanged, one drop is counted and the buffer is freed. |
| EndDriver.Poll | P07_et/ethtooled_network_driver.c:190-212 | Delivers min(budget, queued) packets, oldest first, with matching rx counters, and leaves the rest queued. NAPI completes and interrupts are re-enabled exactly when the pass ends under budget. |
| EndDriver.PeerXmit | P04_vnic/nic.c:189-192 | The engine ends as nic_start_xmit leaves it, apart from the interrupt flag. If the engine fires this driver's handler, the handler runs before the call returns: the driver logs the interrupt disable and a poll schedule, and interrupts end disabled. Otherwise the driver's log and the interrupt flag are unchanged. The driver's statistics never change. |
| EndDriver.EdgeTriggered | P07_et/ethtooled_network_driver.c:114-120 | Two deliveries to an armed driver invoke the handler once. It disables interrupts, the second packet is queued silently, and one poll is scheduled. |
| EndDriver.NoHandlerWhileDisabled | P04_vnic/nic.c:189 | With interrupts disabled, a delivery never reaches the handler and the driver's log is unchanged. |
| EndDriver.RearmedAfterPoll | P07_et/ethtooled_network_driver.c:190-212 | After a poll pass that ends under budget, the receive ring is empty and interrupts are armed. The next delivery is queued, invokes the handler and schedules a poll again. |
| NdDriver.Handler | P06_pn/network_driver.c:105-111 | The handler's calls are exactly: disable the card's interrupts, then schedule the poll. Statistics are unchanged. |
| NdDriver.Open | P06_pn/network_driver.c:113-123 | The open's calls are exactly: buffer setup, NAPI enable, handler registration, then hardware init. Statistics are unchanged. |
| NdDriver.Close | P06_pn/network_driver.c:124-136 | Shut, unregister, NAPI disable and cleanup happen in that order, and the statistics are zeroed. |
| NdDriver.StartXmit | P06_pn/network_driver.c:137-156 | A non-zero result from nic_hw_tx_pkt counts a drop and frees the buffer. Zero counts the packet and the length read before the hand-over. |
| NdDriver.Poll | P06_pn/network_driver.c:171-193 | Fetches exactly min(budget, pending) packets. It never fetches one it does not deliver: what is left over is exactly what follows the delivered packets in pending. Rx counters match. NAPI completes and interrupts are re-enabled exactly under budget. |
| NdDriver.SameProtocolAsEnd | P06_pn/network_driver.c:105-123 | Against the simulated engine, the PCI driver's open and handler make the same calls in the same order as the ring driver's, and its transmit statistics agree. |
| NdDriver.SameCloseAsEnd | P06_pn/network_driver.c:124-136 | The PCI driver's close makes the same calls in the same order as the ring driver's, and both zero the statistics. |
| NdDriver.SamePollAsEnd | P06_pn/network_driver.c:171-193 | When nic_hw_rx_pkt yields what the engine's receive ring holds, both polls do the same work, keep the same statistics and make the same calls. What the PCI driver leaves pending is what the engine still holds. |
| Loopback.Open | P03_ndo/lb_network_driver.c:115-122 | NAPI is enabled and nothing else changes. |
| Loopback.Close | P03_ndo/lb_network_driver.c:123-137 | NAPI is disabled, the waiting packet is forgotten without being freed, and the statistics are zeroed. |
| Loopback.StartXmit | P03_ndo/lb_network_driver.c:138-160 | The new packet always ends up waiting. A packet already waiting is counted as dropped and freed, and otherwise nothing is counted. |
| Loopback.Poll | P03_ndo/lb_network_driver.c:175-217 | The slot is emptied. A waiting packet counts as tx and rx, with its length on both sides. An empty slot counts one tx and one rx error. Work is 1, and NAPI completes exactly when 1 < budget. |
| Loopback.Conservation | P03_ndo/lb_network_driver.c:138-217 | Over any run of opens, transmits and polls with no close, every transmitted packet is counted as looped back, dropped or still waiting. Every poll counts one as looped back or counts an error. Rx counters move exactly with tx counters. |
| Loopback.RunSplit | P03_ndo/lb_network_driver.c:115-217 | A run of device operations splits at any point into two consecutive runs. |
| Loopback.ConservationSinceClose | P03_ndo/lb_network_driver.c:123-137 | A close zeroes the counters and empties the slot. After the last close of any run, the same balance holds from zero counters over the operations that follow it. |
| Loopback.CloseForgetsWaiting | P03_ndo/lb_network_driver.c:130-137 | A packet still waiting when the device closes is neither counted as looped back nor freed. The close logs only the NAPI disable, and the counters restart at zero. |
| Classifier.Classify | P01_pp/packet_parser.c:29-77 | Fewer than 14 bytes is incomplete. EtherType other than 0x0800 is not IP. An IPv4 frame with a protocol other than 17 or 6 is not UDP/TCP. Otherwise the payload starts at 42 (UDP) or 54 (TCP) and never past the end. |
| Classifier.ParsePkt | Apps/net_ops.c:89-160 | The verdict is the classifier's. For UDP/TCP the bytes reported are exactly bytes offset..len in order, len - offset of them. Otherwise none. |
| Classifier.ParseBuild | P01_pp/packet_parser.c:42-83 | Any frame built from MACs, EtherType 0x0800, a 20-byte IPv4 header with protocol 17 or 6, a transport header and a payload parses back to exactly that payload. |
| Classifier.BuildParse | P01_pp/packet_parser.c:50-72 | Every frame with a payload is such a built frame, with parts at the fixed offsets. |
| Classifier.TruncatedIsIncomplete | P01_pp/packet_parser.c:31-68 | A built frame cut anywhere inside its headers is incomplete. |
| Classifier.ExtendKeepsVerdict | P01_pp/packet_parser.c:37-77 | Once the verdict is not incomplete, appending bytes does not change it. |
| Classifier.OnlyKeyBytesMatter | P01_pp/packet_parser.c:50 | Only the length and bytes 12, 13 and 23 decide the verdict. The IHL field is ignored. |
| NetOps.Prepared | Apps/net_ops.c:64-76 | The prepared buffer has destination 5A x6, source 00..05, EtherType 0, byte i equal to i mod 256 for 14 <= i < len, and the old contents beyond. |
| NetOps.PreparePkt | Apps/net_ops.c:57-77 | Any length below 14, negative included, returns 0 and leaves the buffer alone. Otherwise the loop produces the prepared buffer and returns len. |
| NetOps.PreparePktAsWritten | Apps/net_ops.c:59 | The unsigned comparison refuses only 0 <= len < 14. Every other length, negative ones included, writes the header and is returned. |
| NetOps.NegativeLengthPassesGuard | Apps/net_ops.c:59-63 | With len = -1 the written code overwrites the header and returns -1. |
| NetOps.PreparedIsNonIp | Apps/net_ops.c:71 | Every prepared frame, cut to the returned length, classifies as not IP and yields no payload. |
| NetOps.PreparedIgnoresOldContents | Apps/net_ops.c:64-76 | The bytes sent depend on the length alone, not on what the buffer held. |

## Left out

- Locking is left out. Each modelled operation is one atomic step. No operation runs concurrently with another, even where the source releases the lock in between.
- `nic_ready` and `nic_intr_enabled` are written without the lock in the engine. Races on them are not modelled.
- NAPI scheduling is only recorded as log events. No poll runs because of them; polls are separate steps.
- `nic_open` and `nic_close` of the engine are left out. They only enable or disable the far end's NAPI and zero the far end's statistics, and no property depends on them.
- The pending-interrupt re-check in `nic_hw_enable_intr` is left out because it sits under `#ifdef TODO` and is not compiled.
- Module init and exit, netdev allocation and registration, MAC address setup and the ethtool `get_drvinfo` string copy are left out as kernel plumbing.
- `display_packet` and all other printing are left out. The classifier models the verdict and the payload bytes, not the printed text.
- `Apps/net_apis.c`, and `main`, `enable_ipv6` and `dump_pkt` of `Apps/net_ops.c`, are left out: they are socket, ioctl and file I/O. `main` of `P01_pp/packet_parser.c` is left out too; it reads at most 1500 bytes from a file, and the classifier takes those bytes as its input.
- The PCI drivers' probe, region and ioremap code is left out. In `P06_pn/nic.c` the hardware calls are stubs: transmit frees the buffer and returns 0, and receive returns NULL. Rather than fix those two values, NdDriver takes what `nic_hw_tx_pkt` returns and what `nic_hw_rx_pkt` yields as parameters.
- `P03_ndo/tx_network_driver.c` is left out; it frees and returns. `P02_fnd` is left out; it is registration boilerplate.
- Nic.Poll: the budget is a nat. The source compares an unsigned `work_done` with a signed budget, so a negative budget would complete NAPI, but NAPI never passes one.
- EndDriver.Poll: the budget is a nat, for the same reason.
- EndDriver.Poll: the whole pass is one step, with no far-end delivery between its nic_hw_rx_pkt calls. In the source each call takes the lock on its own, so a packet delivered mid-pass can be received in the same pass, and `work_done` can exceed the queue length at entry. NdDriver.Poll's `pending` parameter covers that case for the PCI driver.
- NicFifo.Run: the actions are the transmit, receive, poll, interrupt, handler and init/shutdown entry points. `nic_setup_buffers` and `nic_cleanup_buffers` are not actions, because setup discards queued buffers without freeing them. Conservation is therefore promised only between buffer setups; Nic.SetupBuffers and Nic.CleanupBuffers state what those two calls do to the queues.
- NdDriver.Poll: the budget is a nat, for the same reason.
- Loopback.Poll: the budget is a nat, for the same reason.
- Statistics counters are unbounded. The kernel's unsigned long counters could wrap; that is not modelled.
- Classifier.ParsePkt takes the frame as a byte sequence whose length is `len`. Its callers pass read and receive lengths, which are never negative, so negative lengths are not modelled there.

## Findings

| source | as written | input that shows it | evidently intended | confidence | as-written member | corrected member |
|---|---|---|---|---|---|---|
| P04_vnic/nic.c:426 | The packet is stored in tx slot 0 (placeholder index) | Two nic_hw_tx_pkt calls on a freshly opened NIC: the second overwrites the first, and slot 1 stays NULL inside the live range | Store at tx_drv | not executed | NicTodo.TxPlaceholderLosesPacket | Nic.HwTxPkt |
| P04_vnic/nic.c:449 | Slot 0 is cleared instead of the slot at rx_drv | Two deliveries, then two nic_hw_rx_pkt calls: slot 1 still holds a buffer already handed to the stack while the ring reads empty | Clear the slot at rx_drv | not executed | NicTodo.RxPlaceholderLeavesStaleSlot | Nic.HwRxPkt |
| Apps/net_ops.c:59 | The signed len is compared with an unsigned size, so a negative len passes the guard | prepare_pkt(buf, -1) writes the 14-byte header and returns -1 | Refuse every len below 14 with 0 and write nothing | not executed (the only caller passes 100) | NetOps.NegativeLengthPassesGuard | NetOps.PreparePkt |
