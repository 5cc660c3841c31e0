/** The driver upper half that runs on the simulated NIC engine: open and
    close sequencing, the transmit entry point, the interrupt handler and
    the budgeted NAPI poll that drains the receive ring. The far end's
    transmit path is composed with the handler it triggers, since the
    engine invokes the registered handler before nic_start_xmit returns. */
module EndDriver {
  import opened Net
  import Nic
  import Ring

  /** The driver's device: the private-area pointer it registers as handler
      parameter, the NIC engine it drives, its own network device
      statistics, and the calls it made. */
  datatype End = End(pvt: Param, nic: Nic.Nic, stats: Stats, log: seq<Event>)

  predicate Wf(e: End)
  {
    Nic.Wf(e.nic)
  }

  /** handler: disable NIC interrupts, then schedule the driver's poll. */
  function Handler(e: End): (r: End)
    ensures !r.nic.intrEnabled
    ensures r.log == e.log + [Call(DisableIntr), NapiSchedule]
    ensures r == e.(nic := e.nic.(intrEnabled := false), log := r.log)
  {
    e.(nic := Nic.DisableIntr(e.nic), log := e.log + [Call(DisableIntr), NapiSchedule])
  }

  /** end_open: set up the rings, enable NAPI, register the handler with the
      private area as parameter, and only then bring the NIC up. */
  function Open(e: End): (r: End)
    ensures Wf(r) && Nic.TxQueue(r.nic) == [] && Nic.RxQueue(r.nic) == []
    ensures r.nic.ready && r.nic.intrEnabled
    ensures r.nic.handler == Some(EndHandler) && r.nic.param == Some(e.pvt)
    ensures r.log == e.log + [Call(SetupBuffers), NapiEnable, Call(RegisterHandler), Call(HwInit)]
    ensures r.stats == e.stats && r.pvt == e.pvt
    ensures r.nic.stats == e.nic.stats && r.nic.log == e.nic.log
  {
    var n := Nic.HwInit(Nic.RegisterHandler(Nic.SetupBuffers(e.nic), Some(EndHandler), Some(e.pvt)));
    e.(nic := n, log := e.log + [Call(SetupBuffers), NapiEnable, Call(RegisterHandler), Call(HwInit)])
  }

  /** end_close: shut the NIC down first, unregister the handler, disable
      NAPI, release every packet still in either ring, then zero the
      statistics. */
  method Close(e: End) returns (r: End)
    requires Wf(e)
    ensures Wf(r) && Nic.TxQueue(r.nic) == [] && Nic.RxQueue(r.nic) == []
    ensures !r.nic.ready && !r.nic.intrEnabled
    ensures r.nic.handler == None && r.nic.param == None
    ensures r.nic.tx == Ring.Empty(Nic.NUM_TX_DESC) && r.nic.rx == Ring.Empty(Nic.NUM_RX_DESC)
    ensures r.nic.stats == e.nic.stats
    ensures r.nic.log == e.nic.log + Freed(Nic.TxQueue(e.nic)) + Freed(Nic.RxQueue(e.nic))
    ensures r.log == e.log + [Call(HwShut), Call(UnregisterHandler), NapiDisable, Call(CleanupBuffers)]
    ensures r.stats == ZeroStats && r.pvt == e.pvt
  {
    var n := Nic.UnregisterHandler(Nic.HwShut(e.nic));
    n := Nic.CleanupBuffers(n);
    r := End(e.pvt, n, ZeroStats,
             e.log + [Call(HwShut), Call(UnregisterHandler), NapiDisable, Call(CleanupBuffers)]);
  }

  /** end_start_xmit: hand the packet to the NIC. If the NIC refuses it the
      driver counts a drop and frees the buffer; otherwise it counts the
      packet and the length read before the hand-over. */
  function StartXmit(e: End, skb: Pkt): (r: End)
    requires Wf(e)
    ensures Wf(r)
    ensures var accepted := e.nic.ready && |Nic.TxQueue(e.nic)| < Nic.NUM_TX_DESC - 1;
      && (accepted ==>
            && Nic.TxQueue(r.nic) == Nic.TxQueue(e.nic) + [skb]
            && r.nic == e.nic.(tx := r.nic.tx, log := e.nic.log + [NapiSchedule])
            && r.stats == e.stats.(txPackets := e.stats.txPackets + 1, txBytes := e.stats.txBytes + skb.Len())
            && r.log == e.log)
      && (!accepted ==>
            && r.nic == e.nic
            && r.stats == e.stats.(txDropped := e.stats.txDropped + 1)
            && r.log == e.log + [FreeSkb(skb)])
    ensures r.pvt == e.pvt
  {
    var len := skb.Len();
    var s := Nic.HwTxPkt(e.nic, skb);
    if s.ret != 0 then
      e.(nic := s.nic, stats := e.stats.(txDropped := e.stats.txDropped + 1), log := e.log + [FreeSkb(skb)])
    else
      e.(nic := s.nic, stats := e.stats.(txPackets := e.stats.txPackets + 1, txBytes := e.stats.txBytes + len))
  }

  /** The accounting end_poll does for one packet it hands to the stack. */
  function Deliver(e: End, skb: Pkt): (r: End)
    ensures r.stats == e.stats.(rxPackets := e.stats.rxPackets + 1, rxBytes := e.stats.rxBytes + skb.Len())
    ensures r.log == e.log + [GroReceive(skb)]
    ensures r.nic == e.nic && r.pvt == e.pvt
  {
    e.(stats := e.stats.(rxPackets := e.stats.rxPackets + 1, rxBytes := e.stats.rxBytes + skb.Len()),
       log := e.log + [GroReceive(skb)])
  }

  /** One nic_hw_rx_pkt call on a receive ring holding the tail q[k..] of a
      queue: NULL exactly at the end of q, otherwise q[k], leaving q[k + 1..]. */
  lemma RxNext(n: Nic.Nic, q: seq<Pkt>, k: nat)
    requires Nic.Wf(n) && k <= |q| && Nic.RxQueue(n) == q[k..]
    ensures var got := Nic.HwRxPkt(n);
      && (got.skb == None <==> k == |q|)
      && (got.skb.Some? ==> got.skb.value == q[k] && Nic.RxQueue(got.nic) == q[k + 1..])
      && got.nic == n.(rx := got.nic.rx)
  {
    var got := Nic.HwRxPkt(n);
    if got.skb.Some? {
      assert [got.skb.value] + Nic.RxQueue(got.nic) == q[k..];
      assert q[k..] == [q[k]] + q[k + 1..];
    }
  }

  /** After k passes of the receive loop over the queue q the driver has
      handed q[..k] to the stack, with matching counters, and the ring holds
      q[k..]; nothing else has changed. */
  predicate Drained(e: End, q: seq<Pkt>, r: End, k: nat)
  {
    && Wf(r) && k <= |q|
    && Nic.RxQueue(r.nic) == q[k..]
    && r.stats == e.stats.(rxPackets := e.stats.rxPackets + k,
                           rxBytes := e.stats.rxBytes + TotalLen(q[..k]))
    && r.log == e.log + Received(q[..k])
    && r.nic == e.nic.(rx := r.nic.rx) && r.pvt == e.pvt
  }

  /** One pass of the receive loop: nic_hw_rx_pkt, and on a packet its
      delivery to the stack. */
  method Fetch(e: End, q: seq<Pkt>, r: End, k: nat) returns (r': End, got: bool)
    requires Drained(e, q, r, k)
    ensures got <==> k < |q|
    ensures got ==> Drained(e, q, r', k + 1)
    ensures !got ==> r' == r
  {
    RxNext(r.nic, q, k);
    var x := Nic.HwRxPkt(r.nic);
    if x.skb == None {
      return r, false;
    }
    PrefixStep(q, k);
    r' := Deliver(r.(nic := x.nic), x.skb.value);
    got := true;
  }

  /** The receive loop of end_poll: hand packets from the receive ring to
      the stack, oldest first, until the budget is used up or
      nic_hw_rx_pkt returns NULL. */
  method DrainRx(e: End, budget: nat) returns (r: End, workDone: nat)
    requires Wf(e)
    ensures workDone == Min(budget, |Nic.RxQueue(e.nic)|)
    ensures Drained(e, Nic.RxQueue(e.nic), r, workDone)
  {
    var q := Nic.RxQueue(e.nic);
    r := e;
    workDone := 0;
    assert q[..0] == [];
    while workDone < budget
      invariant workDone <= budget
      invariant Drained(e, q, r, workDone)
      decreases budget - workDone
    {
      var got;
      r, got := Fetch(e, q, r, workDone);
      if !got {
        break;
      }
      workDone := workDone + 1;
    }
  }

  /** end_poll: the receive loop, then, only for a pass that ends under
      budget, NAPI completion and re-enabling of NIC interrupts; a pass that
      uses the whole budget leaves interrupts as they were. */
  method Poll(e: End, budget: nat) returns (r: End, workDone: nat)
    requires Wf(e)
    ensures Wf(r)
    ensures workDone == Min(budget, |Nic.RxQueue(e.nic)|)
    ensures var delivered := Nic.RxQueue(e.nic)[..workDone];
      && Nic.RxQueue(r.nic) == Nic.RxQueue(e.nic)[workDone..]
      && r.stats == e.stats.(rxPackets := e.stats.rxPackets + workDone,
                             rxBytes := e.stats.rxBytes + TotalLen(delivered))
      && r.log == e.log + Received(delivered)
                        + (if workDone < budget then [NapiComplete, Call(EnableIntr)] else [])
    ensures r.nic.intrEnabled == (workDone < budget || e.nic.intrEnabled)
    ensures r.nic == e.nic.(rx := r.nic.rx, intrEnabled := r.nic.intrEnabled)
    ensures r.pvt == e.pvt
  {
    r, workDone := DrainRx(e, budget);
    if workDone < budget {
      r := r.(nic := Nic.EnableIntr(r.nic), log := r.log + [NapiComplete, Call(EnableIntr)]);
    }
  }

  /** The far end transmits towards the driver (nic_start_xmit); if the engine
      invokes the registered handler and it is this driver's, the handler
      runs before the far end's call returns. */
  function PeerXmit(e: End, skb: Pkt): (r: End)
    requires Wf(e)
    ensures Wf(r)
    ensures var x := Nic.StartXmit(e.nic, skb);
      var handled := x.fired && e.nic.handler == Some(EndHandler);
      && r.nic == x.nic.(intrEnabled := r.nic.intrEnabled)
      && r.stats == e.stats && r.pvt == e.pvt
      && (handled ==> r.log == e.log + [Call(DisableIntr), NapiSchedule] && !r.nic.intrEnabled)
      && (!handled ==> r.log == e.log && r.nic.intrEnabled == e.nic.intrEnabled)
  {
    var x := Nic.StartXmit(e.nic, skb);
    if x.fired && e.nic.handler == Some(EndHandler) then Handler(e.(nic := x.nic)) else e.(nic := x.nic)
  }

  /** Interrupts behave as edge-triggered: the first accepted delivery
      invokes the driver's handler, which disables NIC interrupts, so a
      second delivery queues its packet without invoking the handler again.
      Exactly one poll is scheduled for the two packets. */
  lemma EdgeTriggered(e: End, p1: Pkt, p2: Pkt)
    requires Wf(e) && e.nic.ready && e.nic.intrEnabled && e.nic.handler == Some(EndHandler)
    requires |Nic.RxQueue(e.nic)| < Nic.NUM_RX_DESC - 2
    ensures var e1 := PeerXmit(e, p1);
      var e2 := PeerXmit(e1, p2);
      && e1.nic.log == e.nic.log + [HandlerCall(EndHandler, e.nic.param)]
      && !e1.nic.intrEnabled && !e2.nic.intrEnabled
      && e2.nic.log == e1.nic.log
      && Nic.RxQueue(e2.nic) == Nic.RxQueue(e.nic) + [p1, p2]
      && e2.log == e.log + [Call(DisableIntr), NapiSchedule]
  {
    var e1 := PeerXmit(e, p1);
    assert Nic.RxQueue(e1.nic) == Nic.RxQueue(e.nic) + [p1];
  }

  /** While NIC interrupts are disabled, deliveries never reach the handler,
      whatever is registered; each is queued or counted as a drop. */
  lemma NoHandlerWhileDisabled(e: End, skb: Pkt)
    requires Wf(e) && !e.nic.intrEnabled
    ensures var r := PeerXmit(e, skb);
      && r.log == e.log && !r.nic.intrEnabled
      && (forall ev :: ev in r.nic.log[|e.nic.log|..] ==> !ev.HandlerCall?)
  {
  }

  /** After a pass of end_poll that ends under budget the receive ring is
      empty and interrupts are armed again, so the next delivery from the
      far end is queued, invokes the handler and schedules the poll anew. */
  method RearmedAfterPoll(e: End, budget: nat, skb: Pkt) returns (p: End, workDone: nat, r: End)
    requires Wf(e) && e.nic.ready && e.nic.handler == Some(EndHandler)
    ensures Wf(p) && Wf(r)
    ensures workDone < budget ==>
      && Nic.RxQueue(p.nic) == [] && p.nic.intrEnabled
      && Nic.RxQueue(r.nic) == [skb]
      && r.log == p.log + [Call(DisableIntr), NapiSchedule]
      && r.nic.log == p.nic.log + [HandlerCall(EndHandler, e.nic.param)]
  {
    p, workDone := Poll(e, budget);
    r := PeerXmit(p, skb);
  }
}
