/** The PCI network driver's upper half. Its NIC layer is a per-device
    interface whose implementation is left to be written for each card
    (every entry point of its nic.c is a stub), so the driver is modelled
    against that interface alone: what nic_hw_tx_pkt returns is a
    parameter, successive nic_hw_rx_pkt calls yield the packets of a queue
    and then NULL, and the lifecycle and interrupt entry points are
    recorded as calls in the driver's log. */
module NdDriver {
  import opened Net
  import Nic
  import EndDriver

  /** The driver's network device: statistics and the calls it made. */
  datatype Nd = Nd(stats: Stats, log: seq<Event>)

  const OpenCalls: seq<Event> := [Call(SetupBuffers), NapiEnable, Call(RegisterHandler), Call(HwInit)]
  const CloseCalls: seq<Event> := [Call(HwShut), Call(UnregisterHandler), NapiDisable, Call(CleanupBuffers)]
  const HandlerCalls: seq<Event> := [Call(DisableIntr), NapiSchedule]

  /** handler: disable the device's interrupts, then schedule the poll. */
  function Handler(d: Nd): (r: Nd)
    ensures r == d.(log := d.log + HandlerCalls)
  {
    d.(log := d.log + [Call(DisableIntr), NapiSchedule])
  }

  /** nd_open: set up buffers, enable NAPI, register the handler, and only
      then initialise the hardware. */
  function Open(d: Nd): (r: Nd)
    ensures r == d.(log := d.log + OpenCalls)
  {
    d.(log := d.log + [Call(SetupBuffers), NapiEnable, Call(RegisterHandler), Call(HwInit)])
  }

  /** nd_close: shut the hardware down first, unregister the handler,
      disable NAPI, clean up the buffers, then zero the statistics. */
  function Close(d: Nd): (r: Nd)
    ensures r.stats == ZeroStats
    ensures r.log == d.log + CloseCalls
  {
    Nd(ZeroStats, d.log + [Call(HwShut), Call(UnregisterHandler), NapiDisable, Call(CleanupBuffers)])
  }

  /** nd_start_xmit, given what nic_hw_tx_pkt returned: non-zero counts a
      drop and frees the buffer; zero counts the packet and the length read
      before the hand-over. */
  function StartXmit(d: Nd, skb: Pkt, txRet: int): (r: Nd)
    ensures txRet != 0 ==> r == Nd(d.stats.(txDropped := d.stats.txDropped + 1), d.log + [FreeSkb(skb)])
    ensures txRet == 0 ==> r == Nd(d.stats.(txPackets := d.stats.txPackets + 1,
                                            txBytes := d.stats.txBytes + skb.Len()), d.log)
  {
    var len := skb.Len();
    if txRet != 0 then
      Nd(d.stats.(txDropped := d.stats.txDropped + 1), d.log + [FreeSkb(skb)])
    else
      Nd(d.stats.(txPackets := d.stats.txPackets + 1, txBytes := d.stats.txBytes + len), d.log)
  }

  /** nd_poll against a device whose successive nic_hw_rx_pkt calls yield
      `pending` and then NULL. The loop stops on budget or on NULL, so it
      never fetches a packet it does not hand on: what it delivers followed
      by what the device still holds is exactly `pending`. Only a pass under
      budget completes NAPI and re-enables the device's interrupts. */
  method Poll(d: Nd, pending: seq<Pkt>, budget: nat) returns (r: Nd, workDone: nat, rest: seq<Pkt>)
    ensures workDone <= budget
    ensures workDone == Min(budget, |pending|)
    ensures rest == pending[workDone..] && pending == pending[..workDone] + rest
    ensures r.stats == d.stats.(rxPackets := d.stats.rxPackets + workDone,
                                rxBytes := d.stats.rxBytes + TotalLen(pending[..workDone]))
    ensures r.log == d.log + Received(pending[..workDone])
                           + (if workDone < budget then [NapiComplete, Call(EnableIntr)] else [])
  {
    r := d;
    workDone := 0;
    rest := pending;
    while workDone < budget
      invariant workDone <= budget && workDone <= |pending|
      invariant rest == pending[workDone..]
      invariant r.stats == d.stats.(rxPackets := d.stats.rxPackets + workDone,
                                    rxBytes := d.stats.rxBytes + TotalLen(pending[..workDone]))
      invariant r.log == d.log + Received(pending[..workDone])
      decreases budget - workDone
    {
      if rest == [] {
        break;
      }
      var skb := rest[0];
      rest := rest[1..];
      PrefixStep(pending, workDone);
      r := r.(stats := r.stats.(rxPackets := r.stats.rxPackets + 1, rxBytes := r.stats.rxBytes + skb.Len()),
              log := r.log + [GroReceive(skb)]);
      workDone := workDone + 1;
    }
    assert pending == pending[..workDone] + pending[workDone..];
    if workDone < budget {
      r := r.(log := r.log + [NapiComplete, Call(EnableIntr)]);
    }
  }

  /** Both ring-driver upper halves follow one protocol: against the
      simulated engine, the driver of module EndDriver makes the same calls
      in the same order on open and on interrupt, and keeps the same
      transmit statistics when nic_hw_tx_pkt is given the engine's answer.
      Close and poll are compared by SameCloseAsEnd and SamePollAsEnd. */
  lemma SameProtocolAsEnd(d: Nd, e: EndDriver.End, skb: Pkt)
    requires Nic.Wf(e.nic) && d.stats == e.stats
    ensures EndDriver.Open(e).log == e.log + Open(d).log[|d.log|..]
    ensures EndDriver.Handler(e).log == e.log + Handler(d).log[|d.log|..]
    ensures StartXmit(d, skb, Nic.HwTxPkt(e.nic, skb).ret).stats == EndDriver.StartXmit(e, skb).stats
  {
    assert Open(d).log[|d.log|..] == OpenCalls;
    assert Handler(d).log[|d.log|..] == HandlerCalls;
  }

  /** On close both drivers make the same calls in the same order and reset
      the statistics alike. */
  method SameCloseAsEnd(d: Nd, e: EndDriver.End) returns (rd: Nd, re: EndDriver.End)
    requires Nic.Wf(e.nic)
    ensures rd.stats == ZeroStats && re.stats == ZeroStats
    ensures |d.log| <= |rd.log| && re.log == e.log + rd.log[|d.log|..]
  {
    rd := Close(d);
    re := EndDriver.Close(e);
    assert rd.log[|d.log|..] == CloseCalls;
  }

  /** When nic_hw_rx_pkt yields what the engine's receive ring holds, both
      polls do the same work, deliver the same packets with the same
      counters and make the same calls; what this driver leaves pending is
      what the engine still holds. */
  method SamePollAsEnd(d: Nd, e: EndDriver.End, budget: nat)
      returns (rd: Nd, wd: nat, rest: seq<Pkt>, re: EndDriver.End, we: nat)
    requires Nic.Wf(e.nic) && d.stats == e.stats
    ensures Nic.Wf(re.nic)
    ensures wd == we && rd.stats == re.stats
    ensures |d.log| <= |rd.log| && re.log == e.log + rd.log[|d.log|..]
    ensures rest == Nic.RxQueue(re.nic)
  {
    rd, wd, rest := Poll(d, Nic.RxQueue(e.nic), budget);
    re, we := EndDriver.Poll(e, budget);
    var calls := Received(Nic.RxQueue(e.nic)[..wd]) + (if wd < budget then [NapiComplete, Call(EnableIntr)] else []);
    assert rd.log == d.log + calls;
    assert rd.log[|d.log|..] == calls;
  }
}
