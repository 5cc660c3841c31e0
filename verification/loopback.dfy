/** The loopback driver: a one-slot mailbox. Transmitting stores the packet
    in the slot, dropping (and freeing) any packet still waiting there; the
    poll takes the slot's packet and counts it both as transmitted and as
    received. The poll is not scheduled by the transmit path and does not
    hand the packet to the stack; both calls are commented out in the
    driver, so neither appears in the log. */
module Loopback {
  import opened Net

  /** The device: the waiting packet, if any, its statistics and its calls. */
  datatype Lb = Lb(skb: Option<Pkt>, stats: Stats, log: seq<Event>)

  /** lnd_open: enable NAPI. */
  function Open(l: Lb): (r: Lb)
    ensures r.skb == l.skb && r.stats == l.stats
    ensures r.log == l.log + [NapiEnable]
  {
    l.(log := l.log + [NapiEnable])
  }

  /** lnd_close: disable NAPI, forget the waiting packet (it is not freed)
      and zero the statistics. */
  function Close(l: Lb): (r: Lb)
    ensures r.skb == None && r.stats == ZeroStats
    ensures r.log == l.log + [NapiDisable]
  {
    Lb(None, ZeroStats, l.log + [NapiDisable])
  }

  /** lnd_start_xmit: a packet still waiting is counted as dropped and freed;
      the new packet then takes the slot. */
  function StartXmit(l: Lb, skb: Pkt): (r: Lb)
    ensures r.skb == Some(skb)
    ensures l.skb.Some? ==> r.stats == l.stats.(txDropped := l.stats.txDropped + 1)
                            && r.log == l.log + [FreeSkb(l.skb.value)]
    ensures l.skb.None? ==> r.stats == l.stats && r.log == l.log
  {
    var l' :=
      if l.skb.Some? then
        l.(stats := l.stats.(txDropped := l.stats.txDropped + 1), log := l.log + [FreeSkb(l.skb.value)], skb := None)
      else
        l;
    l'.(skb := Some(skb))
  }

  datatype Polled = Polled(lb: Lb, workDone: nat, complete: bool)

  /** lnd_poll: take the slot's packet, leaving the slot empty. A packet is
      counted as transmitted and received with its length on both sides; an
      empty slot counts a transmit and a receive error. One unit of work is
      always reported, and NAPI completes exactly when that is under budget. */
  function Poll(l: Lb, budget: nat): (r: Polled)
    ensures r.lb.skb == None
    ensures r.workDone == 1
    ensures r.complete <==> 1 < budget
    ensures r.lb.log == l.log + (if r.complete then [NapiComplete] else [])
    ensures l.skb.None? ==>
      r.lb.stats == l.stats.(txErrors := l.stats.txErrors + 1, rxErrors := l.stats.rxErrors + 1)
    ensures l.skb.Some? ==>
      var len := l.skb.value.Len();
      r.lb.stats == l.stats.(txPackets := l.stats.txPackets + 1, txBytes := l.stats.txBytes + len,
                             rxPackets := l.stats.rxPackets + 1, rxBytes := l.stats.rxBytes + len)
  {
    var skb := l.skb;
    var l' := l.(skb := None);
    var stats :=
      if skb.None? then
        l'.stats.(txErrors := l'.stats.txErrors + 1, rxErrors := l'.stats.rxErrors + 1)
      else
        var pktSize := skb.value.Len();
        l'.stats.(txPackets := l'.stats.txPackets + 1, txBytes := l'.stats.txBytes + skb.value.Len(),
                  rxPackets := l'.stats.rxPackets + 1, rxBytes := l'.stats.rxBytes + pktSize);
    var workDone := 1;
    var complete := workDone < budget;
    Polled(l'.(stats := stats, log := l'.log + if complete then [NapiComplete] else []), workDone, complete)
  }

  /** A device operation: open, close, transmit or poll. */
  datatype Op = OpenOp | CloseOp | Xmit(skb: Pkt) | PollOp(budget: nat)

  function Apply(l: Lb, op: Op): Lb
  {
    match op
    case OpenOp => Open(l)
    case CloseOp => Close(l)
    case Xmit(skb) => StartXmit(l, skb)
    case PollOp(budget) => Poll(l, budget).lb
  }

  function Run(l: Lb, ops: seq<Op>): Lb
    decreases |ops|
  {
    if ops == [] then l else Run(Apply(l, ops[0]), ops[1..])
  }

  function Xmits(ops: seq<Op>): nat
  {
    if ops == [] then 0 else (if ops[0].Xmit? then 1 else 0) + Xmits(ops[1..])
  }

  function Polls(ops: seq<Op>): nat
  {
    if ops == [] then 0 else (if ops[0].PollOp? then 1 else 0) + Polls(ops[1..])
  }

  function Waiting(l: Lb): nat
  {
    if l.skb.Some? then 1 else 0
  }

  /** The counters of r account for the operations ops, starting from the
      counters s0 with w0 packets waiting: every transmitted packet is
      looped back, dropped, or still waiting; every poll loops back one
      packet or counts one error on each side; and the receive side counts
      exactly what the transmit side counts as looped back. */
  predicate Balanced(s0: Stats, w0: nat, ops: seq<Op>, r: Lb)
  {
    && Xmits(ops) + w0 + s0.txPackets + s0.txDropped == Waiting(r) + r.stats.txPackets + r.stats.txDropped
    && Polls(ops) + s0.txPackets + s0.txErrors == r.stats.txPackets + r.stats.txErrors
    && r.stats.txErrors - s0.txErrors == r.stats.rxErrors - s0.rxErrors
    && r.stats.txPackets - s0.txPackets == r.stats.rxPackets - s0.rxPackets
    && r.stats.txBytes - s0.txBytes == r.stats.rxBytes - s0.rxBytes
  }

  /** Over any run without a close, the counters balance against every
      operation of the run. */
  lemma {:induction false} Conservation(l: Lb, ops: seq<Op>)
    requires CloseOp !in ops
    ensures Balanced(l.stats, Waiting(l), ops, Run(l, ops))
    decreases |ops|
  {
    if ops != [] {
      assert CloseOp !in ops[1..] by {
        forall i | 0 <= i < |ops[1..]| ensures ops[1..][i] != CloseOp {
          assert ops[1..][i] == ops[i + 1];
        }
      }
      Conservation(Apply(l, ops[0]), ops[1..]);
      StepBalance(l, ops, Run(l, ops));
    }
  }

  /** A run splits at any point into two runs. */
  lemma {:induction false} RunSplit(l: Lb, ops: seq<Op>, k: nat)
    requires k <= |ops|
    ensures Run(l, ops) == Run(Run(l, ops[..k]), ops[k..])
    decreases k
  {
    if k > 0 {
      assert ops[..k][0] == ops[0] && ops[..k][1..] == ops[1..][..k - 1];
      assert ops[1..][k - 1..] == ops[k..];
      RunSplit(Apply(l, ops[0]), ops[1..], k - 1);
    }
  }

  /** Closing zeroes the counters and forgets the waiting packet, so after
      the last close of a run the counters balance, from zero and an empty
      slot, against the operations that follow it. */
  lemma ConservationSinceClose(l: Lb, ops: seq<Op>, k: nat)
    requires k < |ops| && ops[k] == CloseOp && CloseOp !in ops[k + 1..]
    ensures Balanced(ZeroStats, 0, ops[k + 1..], Run(l, ops))
  {
    var head := ops[..k + 1];
    RunSplit(l, ops, k + 1);
    RunSplit(l, head, k);
    assert head[k..] == [CloseOp] && head[..k] == ops[..k];
    assert [CloseOp][1..] == [];
    var m := Run(l, head);
    assert m.skb == None && m.stats == ZeroStats;
    Conservation(m, ops[k + 1..]);
  }

  /** One operation other than a close extends the balance backwards. */
  lemma StepBalance(l: Lb, ops: seq<Op>, r: Lb)
    requires ops != [] && ops[0] != CloseOp
    requires Balanced(Apply(l, ops[0]).stats, Waiting(Apply(l, ops[0])), ops[1..], r)
    ensures Balanced(l.stats, Waiting(l), ops, r)
  {
  }

  /** A packet still waiting when the device is closed is neither looped
      back nor freed: the close leaves only napi_disable in the log. */
  lemma CloseForgetsWaiting(l: Lb, p: Pkt)
    requires l.skb.None?
    ensures var r := Run(l, [Xmit(p), CloseOp]);
      && r.skb == None && r.stats == ZeroStats
      && r.log == l.log + [NapiDisable]
  {
    assert [Xmit(p), CloseOp][1..] == [CloseOp];
    assert [CloseOp][1..] == [];
  }
}
