/** The simulated NIC engine: a transmit ring filled by the driver and
    drained by the simulated far end, a receive ring filled by the far end
    and drained by the driver, a readiness flag, an interrupt-enable flag,
    and an optional registered handler with its parameter. Every locked
    critical section of the engine is one atomic step here: a function
    from the state before to the state after. The engine's own network
    device statistics (the far end's) and the kernel calls the engine
    makes are part of the state. */
module Nic {
  import opened Net
  import Ring

  const NUM_TX_DESC: nat := 1024
  const NUM_RX_DESC: nat := 1024

  datatype Nic = Nic(
    tx: Ring.Ring,
    rx: Ring.Ring,
    ready: bool,
    intrEnabled: bool,
    handler: Option<Callback>,
    param: Option<Param>,
    stats: Stats,
    log: seq<Event>)

  /** Both rings have their fixed capacities and keep the live-slot invariant. */
  predicate Wf(n: Nic)
  {
    && Ring.Valid(n.tx) && Ring.Cap(n.tx) == NUM_TX_DESC
    && Ring.Valid(n.rx) && Ring.Cap(n.rx) == NUM_RX_DESC
  }

  /** Packets waiting to be transmitted by the far end, oldest first. */
  function TxQueue(n: Nic): seq<Pkt>
    requires Wf(n)
  {
    Ring.Contents(n.tx)
  }

  /** Packets waiting to be picked up by the driver, oldest first. */
  function RxQueue(n: Nic): seq<Pkt>
    requires Wf(n)
  {
    Ring.Contents(n.rx)
  }

  /** The engine right after module load: the private area is zero-filled by
      the allocator and nic_ready is set to 0. */
  function Initial(): (n: Nic)
    ensures Wf(n) && TxQueue(n) == [] && RxQueue(n) == []
    ensures !n.ready && !n.intrEnabled && n.handler == None && n.param == None
  {
    Nic(Ring.Empty(NUM_TX_DESC), Ring.Empty(NUM_RX_DESC), false, false, None, None, ZeroStats, [])
  }

  /** At most NUM - 1 packets are live in either ring. */
  lemma AtMostOneLessThanCapacity(n: Nic)
    requires Wf(n)
    ensures |TxQueue(n)| <= NUM_TX_DESC - 1
    ensures |RxQueue(n)| <= NUM_RX_DESC - 1
  {
  }

  /** nic_setup_buffers: empty every slot and zero all four indices. Slots
      still holding a buffer are overwritten without releasing it. */
  function SetupBuffers(n: Nic): (r: Nic)
    ensures Wf(r) && TxQueue(r) == [] && RxQueue(r) == []
    ensures r.tx.prod == r.tx.cons == r.rx.prod == r.rx.cons == 0
    ensures forall i :: 0 <= i < NUM_TX_DESC ==> r.tx.slots[i] == None
    ensures forall i :: 0 <= i < NUM_RX_DESC ==> r.rx.slots[i] == None
    ensures r == n.(tx := r.tx, rx := r.rx)
  {
    n.(tx := Ring.Empty(NUM_TX_DESC), rx := Ring.Empty(NUM_RX_DESC))
  }

  /** nic_cleanup_buffers: release every packet left in the transmit ring,
      then every packet left in the receive ring, each oldest first, and
      leave both rings empty with all four indices 0. */
  method CleanupBuffers(n: Nic) returns (r: Nic)
    requires Wf(n)
    ensures Wf(r) && TxQueue(r) == [] && RxQueue(r) == []
    ensures r.tx == Ring.Empty(NUM_TX_DESC) && r.rx == Ring.Empty(NUM_RX_DESC)
    ensures r.log == n.log + Freed(TxQueue(n)) + Freed(RxQueue(n))
    ensures r == n.(tx := r.tx, rx := r.rx, log := r.log)
  {
    var tx, txFreed := Ring.Drain(n.tx);
    var rx, rxFreed := Ring.Drain(n.rx);
    r := n.(tx := tx, rx := rx, log := n.log + Freed(txFreed) + Freed(rxFreed));
  }

  /** nic_register_handler: replace handler and parameter together. */
  function RegisterHandler(n: Nic, h: Option<Callback>, p: Option<Param>): (r: Nic)
    ensures r.handler == h && r.param == p
    ensures r == n.(handler := r.handler, param := r.param)
  {
    n.(param := p, handler := h)
  }

  /** nic_unregister_handler: clear handler and parameter together. */
  function UnregisterHandler(n: Nic): (r: Nic)
    ensures r.handler == None && r.param == None
    ensures r == n.(handler := r.handler, param := r.param)
  {
    n.(handler := None, param := None)
  }

  /** nic_hw_enable_intr (the pending-interrupt re-check under #ifdef TODO is
      not compiled, so enabling never fires the handler by itself). */
  function EnableIntr(n: Nic): (r: Nic)
    ensures r.intrEnabled
    ensures r == n.(intrEnabled := r.intrEnabled)
  {
    n.(intrEnabled := true)
  }

  /** nic_hw_disable_intr */
  function DisableIntr(n: Nic): (r: Nic)
    ensures !r.intrEnabled
    ensures r == n.(intrEnabled := r.intrEnabled)
  {
    n.(intrEnabled := false)
  }

  /** nic_hw_init: mark ready, then enable interrupts. */
  function HwInit(n: Nic): (r: Nic)
    ensures r.ready && r.intrEnabled
    ensures r == n.(ready := r.ready, intrEnabled := r.intrEnabled)
  {
    EnableIntr(n.(ready := true))
  }

  /** nic_hw_shut: disable interrupts first, then mark not ready. */
  function HwShut(n: Nic): (r: Nic)
    ensures !r.ready && !r.intrEnabled
    ensures r == n.(ready := r.ready, intrEnabled := r.intrEnabled)
  {
    DisableIntr(n).(ready := false)
  }

  /** Shutting down twice is shutting down once. */
  lemma HwShutIdempotent(n: Nic)
    ensures HwShut(HwShut(n)) == HwShut(n)
  {
  }

  datatype Sent = Sent(nic: Nic, ret: int)

  /** nic_hw_tx_pkt: the driver queues a packet for transmission. It is
      accepted (0) exactly when the NIC is ready and the transmit ring is not
      full; the far end's poll is then scheduled. Otherwise -1 and nothing
      changes: the buffer stays with the caller. */
  function HwTxPkt(n: Nic, skb: Pkt): (r: Sent)
    requires Wf(n)
    ensures Wf(r.nic)
    ensures r.ret == 0 || r.ret == -1
    ensures r.ret == 0 <==> n.ready && |TxQueue(n)| < NUM_TX_DESC - 1
    ensures r.ret == 0 ==> TxQueue(r.nic) == TxQueue(n) + [skb] && r.nic.log == n.log + [NapiSchedule]
    ensures r.ret == 0 ==> r.nic.tx.prod == (n.tx.prod + 1) % NUM_TX_DESC && r.nic.tx.slots[n.tx.prod] == Some(skb)
    ensures r.ret == -1 ==> r.nic == n
    ensures r.nic == n.(tx := r.nic.tx, log := r.nic.log)
  {
    Ring.EmptyFullIffCount(n.tx);
    if n.ready && !Ring.IsFull(n.tx) then
      Sent(n.(tx := Ring.Put(n.tx, skb), log := n.log + [NapiSchedule]), 0)
    else
      Sent(n, -1)
  }

  datatype RxResult = RxResult(nic: Nic, skb: Option<Pkt>)

  /** nic_hw_rx_pkt: the driver takes the oldest received packet. It returns
      nothing exactly when the receive ring is empty (rx_drv == rx_nic); it
      does not look at the ready flag. */
  function HwRxPkt(n: Nic): (r: RxResult)
    requires Wf(n)
    ensures Wf(r.nic)
    ensures r.skb == None <==> n.rx.prod == n.rx.cons
    ensures r.skb == None <==> RxQueue(n) == []
    ensures r.skb.Some? ==> [r.skb.value] + RxQueue(r.nic) == RxQueue(n)
    ensures r.skb.Some? ==> r.nic.rx.cons == (n.rx.cons + 1) % NUM_RX_DESC && r.nic.rx.slots[n.rx.cons] == None
    ensures r.skb == None ==> r.nic == n
    ensures r.nic == n.(rx := r.nic.rx)
  {
    Ring.EmptyFullIffCount(n.rx);
    if !Ring.IsEmpty(n.rx) then
      var (skb, rx) := Ring.Take(n.rx);
      RxResult(n.(rx := rx), Some(skb))
    else
      RxResult(n, None)
  }

  datatype Xmit = Xmit(nic: Nic, fired: bool)

  /** nic_start_xmit: the far end sends a packet towards the driver. It is
      accepted exactly when the NIC is ready and the receive ring is not
      full; the far end's tx counters grow and, if interrupts are enabled
      and a handler is registered, the handler is invoked with its
      parameter. Otherwise the far end counts a drop and frees the buffer. */
  function StartXmit(n: Nic, skb: Pkt): (r: Xmit)
    requires Wf(n)
    ensures Wf(r.nic)
    ensures var accepted := n.ready && |RxQueue(n)| < NUM_RX_DESC - 1;
      && (accepted ==>
            && RxQueue(r.nic) == RxQueue(n) + [skb]
            && r.nic.stats == n.stats.(txPackets := n.stats.txPackets + 1,
                                       txBytes := n.stats.txBytes + skb.Len())
            && (r.fired <==> n.intrEnabled && n.handler.Some?)
            && r.nic.log == n.log + (if r.fired then [HandlerCall(n.handler.value, n.param)] else []))
      && (!accepted ==>
            && r.nic.rx == n.rx
            && !r.fired
            && r.nic.stats == n.stats.(txDropped := n.stats.txDropped + 1)
            && r.nic.log == n.log + [FreeSkb(skb)])
    ensures r.nic == n.(rx := r.nic.rx, stats := r.nic.stats, log := r.nic.log)
  {
    Ring.EmptyFullIffCount(n.rx);
    if n.ready && !Ring.IsFull(n.rx) then
      var fired := n.intrEnabled && n.handler.Some?;
      var stats := n.stats.(txPackets := n.stats.txPackets + 1, txBytes := n.stats.txBytes + skb.Len());
      var log := n.log + (if fired then [HandlerCall(n.handler.value, n.param)] else []);
      Xmit(n.(rx := Ring.Put(n.rx, skb), stats := stats, log := log), fired)
    else
      Xmit(n.(stats := n.stats.(txDropped := n.stats.txDropped + 1), log := n.log + [FreeSkb(skb)]), false)
  }

  datatype Polled = Polled(nic: Nic, workDone: nat, complete: bool)

  /** nic_poll: the far end takes at most one packet from the transmit ring
      and hands it to its stack, counting it as received; an empty ring
      counts a receive error instead. It always reports one unit of work and
      completes NAPI exactly when that is under the budget. */
  function Poll(n: Nic, budget: nat): (r: Polled)
    requires Wf(n)
    ensures Wf(r.nic)
    ensures r.workDone == 1
    ensures r.complete <==> 1 < budget
    ensures var done := if r.complete then [NapiComplete] else [];
      && (TxQueue(n) == [] ==>
            && r.nic.tx == n.tx
            && r.nic.stats == n.stats.(rxErrors := n.stats.rxErrors + 1)
            && r.nic.log == n.log + done)
      && (TxQueue(n) != [] ==>
            var skb := TxQueue(n)[0];
            && TxQueue(r.nic) == TxQueue(n)[1..]
            && r.nic.stats == n.stats.(rxPackets := n.stats.rxPackets + 1,
                                       rxBytes := n.stats.rxBytes + skb.Len())
            && r.nic.log == n.log + [GroReceive(skb)] + done)
    ensures r.nic == n.(tx := r.nic.tx, stats := r.nic.stats, log := r.nic.log)
  {
    Ring.EmptyFullIffCount(n.tx);
    var n' :=
      if !Ring.IsEmpty(n.tx) then
        var (skb, tx) := Ring.Take(n.tx);
        n.(tx := tx,
           stats := n.stats.(rxPackets := n.stats.rxPackets + 1, rxBytes := n.stats.rxBytes + skb.Len()),
           log := n.log + [GroReceive(skb)])
      else
        n.(stats := n.stats.(rxErrors := n.stats.rxErrors + 1));
    var workDone := 1;
    var complete := workDone < budget;
    Polled(n'.(log := n'.log + if complete then [NapiComplete] else []), workDone, complete)
  }

  /** A shut-down NIC refuses every packet on both transmit paths and never
      invokes a handler, while nic_hw_rx_pkt keeps returning what the
      receive ring holds, since it does not look at the ready flag. */
  lemma ShutRefusesTraffic(n: Nic, skb: Pkt)
    requires Wf(n)
    ensures HwTxPkt(HwShut(n), skb).ret == -1
    ensures var x := StartXmit(HwShut(n), skb);
      !x.fired && x.nic.rx == n.rx && x.nic.log == n.log + [FreeSkb(skb)]
    ensures HwRxPkt(HwShut(n)).skb == HwRxPkt(n).skb
  {
  }

  /** The handler runs only when the NIC is ready, its interrupts are
      enabled and a handler is registered; so never after
      nic_hw_disable_intr or nic_unregister_handler. */
  lemma HandlerNeedsArming(n: Nic, skb: Pkt)
    requires Wf(n)
    ensures StartXmit(n, skb).fired ==> n.ready && n.intrEnabled && n.handler.Some?
    ensures !StartXmit(DisableIntr(n), skb).fired
    ensures !StartXmit(UnregisterHandler(n), skb).fired
  {
  }
}
