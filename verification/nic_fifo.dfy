/** First-in first-out delivery through the NIC engine, over any
    interleaving of driver-side and far-end operations: what the driver
    queued with nic_hw_tx_pkt comes out of nic_poll in the same order, and
    what the far end queued with nic_start_xmit comes out of nic_hw_rx_pkt
    in the same order, nothing lost and nothing duplicated. */
module NicFifo {
  import opened Net
  import Nic

  /** One engine entry point with its arguments. */
  datatype Action =
    | DriverTx(skb: Pkt)            // nic_hw_tx_pkt
    | DriverRx                      // nic_hw_rx_pkt
    | PeerTx(skb: Pkt)              // nic_start_xmit
    | PeerPoll(budget: nat)         // nic_poll
    | Init                          // nic_hw_init
    | Shut                          // nic_hw_shut
    | EnableIntr                    // nic_hw_enable_intr
    | DisableIntr                   // nic_hw_disable_intr
    | Register(h: Option<Callback>, p: Option<Param>)   // nic_register_handler
    | Unregister                    // nic_unregister_handler

  /** Packets that entered and left each ring. */
  datatype Flow = Flow(txIn: seq<Pkt>, txOut: seq<Pkt>, rxIn: seq<Pkt>, rxOut: seq<Pkt>)

  const NoFlow := Flow([], [], [], [])

  /** The ring equations of a stretch of actions. */
  predicate Conserves(n: Nic.Nic, f: Flow, n': Nic.Nic)
    requires Nic.Wf(n) && Nic.Wf(n')
  {
    && Nic.TxQueue(n) + f.txIn == f.txOut + Nic.TxQueue(n')
    && Nic.RxQueue(n) + f.rxIn == f.rxOut + Nic.RxQueue(n')
  }

  /** nic_hw_tx_pkt: an accepted packet enters the transmit ring. */
  function DriverTxStep(n: Nic.Nic, skb: Pkt): (r: (Nic.Nic, Flow))
    requires Nic.Wf(n)
    ensures Nic.Wf(r.0) && Conserves(n, r.1, r.0)
    ensures r.0 == Nic.HwTxPkt(n, skb).nic
    ensures r.1 == NoFlow.(txIn := if n.ready && |Nic.TxQueue(n)| < Nic.NUM_TX_DESC - 1 then [skb] else [])
    ensures r.1 == NoFlow.(txIn := if Nic.HwTxPkt(n, skb).ret == 0 then [skb] else [])
  {
    var s := Nic.HwTxPkt(n, skb);
    (s.nic, NoFlow.(txIn := if s.ret == 0 then [skb] else []))
  }

  /** nic_hw_rx_pkt: a returned packet leaves the receive ring. */
  function DriverRxStep(n: Nic.Nic): (r: (Nic.Nic, Flow))
    requires Nic.Wf(n)
    ensures Nic.Wf(r.0) && Conserves(n, r.1, r.0)
    ensures r.0 == Nic.HwRxPkt(n).nic
    ensures r.1 == NoFlow.(rxOut := if Nic.RxQueue(n) == [] then [] else [Nic.RxQueue(n)[0]])
    ensures r.1 == NoFlow.(rxOut := if Nic.HwRxPkt(n).skb.Some? then [Nic.HwRxPkt(n).skb.value] else [])
  {
    var g := Nic.HwRxPkt(n);
    (g.nic, NoFlow.(rxOut := if g.skb.Some? then [g.skb.value] else []))
  }

  /** nic_start_xmit: an accepted packet enters the receive ring. */
  function PeerTxStep(n: Nic.Nic, skb: Pkt): (r: (Nic.Nic, Flow))
    requires Nic.Wf(n)
    ensures Nic.Wf(r.0) && Conserves(n, r.1, r.0)
    ensures r.0 == Nic.StartXmit(n, skb).nic
    ensures r.1 == NoFlow.(rxIn := if n.ready && |Nic.RxQueue(n)| < Nic.NUM_RX_DESC - 1 then [skb] else [])
    ensures r.1 == NoFlow.(rxIn := if Nic.RxQueue(r.0) == Nic.RxQueue(n) then [] else [skb])
  {
    var x := Nic.StartXmit(n, skb);
    var accepted := n.ready && |Nic.RxQueue(n)| < Nic.NUM_RX_DESC - 1;
    (x.nic, NoFlow.(rxIn := if accepted then [skb] else []))
  }

  /** nic_poll: the oldest packet, if any, leaves the transmit ring. */
  function PeerPollStep(n: Nic.Nic, budget: nat): (r: (Nic.Nic, Flow))
    requires Nic.Wf(n)
    ensures Nic.Wf(r.0) && Conserves(n, r.1, r.0)
    ensures r.0 == Nic.Poll(n, budget).nic
    ensures r.1 == NoFlow.(txOut := if Nic.TxQueue(n) == [] then [] else [Nic.TxQueue(n)[0]])
  {
    PollTakesHead(n, budget);
    (Nic.Poll(n, budget).nic, NoFlow.(txOut := if Nic.TxQueue(n) == [] then [] else [Nic.TxQueue(n)[0]]))
  }

  /** nic_poll takes the transmit queue's head, if any, and leaves the
      receive ring alone. */
  lemma PollTakesHead(n: Nic.Nic, budget: nat)
    requires Nic.Wf(n)
    ensures var q := Nic.TxQueue(n);
      var p := Nic.Poll(n, budget).nic;
      && p.rx == n.rx
      && q + [] == (if q == [] then [] else [q[0]]) + Nic.TxQueue(p)
  {
    var q := Nic.TxQueue(n);
    var p := Nic.Poll(n, budget).nic;
    if q != [] {
      assert q == [q[0]] + q[1..];
    }
  }

  /** The entry points that touch neither ring. */
  function ControlStep(n: Nic.Nic, a: Action): (r: (Nic.Nic, Flow))
    requires Nic.Wf(n)
    requires !a.DriverTx? && !a.DriverRx? && !a.PeerTx? && !a.PeerPoll?
    ensures Nic.Wf(r.0) && r.0.tx == n.tx && r.0.rx == n.rx && r.1 == NoFlow
    ensures a.Init? ==> r.0 == Nic.HwInit(n)
    ensures a.Shut? ==> r.0 == Nic.HwShut(n)
    ensures a.EnableIntr? ==> r.0 == Nic.EnableIntr(n)
    ensures a.DisableIntr? ==> r.0 == Nic.DisableIntr(n)
    ensures a.Register? ==> r.0 == Nic.RegisterHandler(n, a.h, a.p)
    ensures a.Unregister? ==> r.0 == Nic.UnregisterHandler(n)
  {
    match a
    case Init => (Nic.HwInit(n), NoFlow)
    case Shut => (Nic.HwShut(n), NoFlow)
    case EnableIntr => (Nic.EnableIntr(n), NoFlow)
    case DisableIntr => (Nic.DisableIntr(n), NoFlow)
    case Register(h, p) => (Nic.RegisterHandler(n, h, p), NoFlow)
    case Unregister => (Nic.UnregisterHandler(n), NoFlow)
  }

  /** One action, with the packets it moved into or out of either ring. */
  function Step(n: Nic.Nic, a: Action): (r: (Nic.Nic, Flow))
    requires Nic.Wf(n)
    ensures Nic.Wf(r.0)
    ensures Nic.TxQueue(n) + r.1.txIn == r.1.txOut + Nic.TxQueue(r.0)
    ensures Nic.RxQueue(n) + r.1.rxIn == r.1.rxOut + Nic.RxQueue(r.0)
  {
    match a
    case DriverTx(skb) => DriverTxStep(n, skb)
    case DriverRx => DriverRxStep(n)
    case PeerTx(skb) => PeerTxStep(n, skb)
    case PeerPoll(budget) => PeerPollStep(n, budget)
    case _ =>
      var r := ControlStep(n, a);
      assert [] + Nic.TxQueue(n) == Nic.TxQueue(n) + [];
      assert [] + Nic.RxQueue(n) == Nic.RxQueue(n) + [];
      r
  }

  /** What a step records is what the engine call does: the state is the
      one the call leaves, a packet enters a ring exactly when the call
      accepts it, a packet leaves a ring exactly when the call returns or
      polls the ring's oldest one, and the other entry points move nothing. */
  lemma StepIsEngineCall(n: Nic.Nic, a: Action)
    requires Nic.Wf(n)
    ensures a.DriverTx? ==>
      && Step(n, a).0 == Nic.HwTxPkt(n, a.skb).nic
      && Step(n, a).1 == NoFlow.(txIn := if Nic.HwTxPkt(n, a.skb).ret == 0 then [a.skb] else [])
    ensures a.DriverRx? ==>
      && Step(n, a).0 == Nic.HwRxPkt(n).nic
      && Step(n, a).1 == NoFlow.(rxOut := if Nic.HwRxPkt(n).skb.Some? then [Nic.HwRxPkt(n).skb.value] else [])
    ensures a.PeerTx? ==>
      && Step(n, a).0 == Nic.StartXmit(n, a.skb).nic
      && Step(n, a).1 == NoFlow.(rxIn := if Nic.RxQueue(Step(n, a).0) == Nic.RxQueue(n) then [] else [a.skb])
    ensures a.PeerPoll? ==>
      && Step(n, a).0 == Nic.Poll(n, a.budget).nic
      && Step(n, a).1 == NoFlow.(txOut := if Nic.TxQueue(n) == [] then [] else [Nic.TxQueue(n)[0]])
    ensures a.Init? ==> Step(n, a) == (Nic.HwInit(n), NoFlow)
    ensures a.Shut? ==> Step(n, a) == (Nic.HwShut(n), NoFlow)
    ensures a.EnableIntr? ==> Step(n, a) == (Nic.EnableIntr(n), NoFlow)
    ensures a.DisableIntr? ==> Step(n, a) == (Nic.DisableIntr(n), NoFlow)
    ensures a.Register? ==> Step(n, a) == (Nic.RegisterHandler(n, a.h, a.p), NoFlow)
    ensures a.Unregister? ==> Step(n, a) == (Nic.UnregisterHandler(n), NoFlow)
  {
  }

  /** The flow of one stretch of actions followed by another. */
  function Then(f1: Flow, f2: Flow): Flow
  {
    Flow(f1.txIn + f2.txIn, f1.txOut + f2.txOut, f1.rxIn + f2.rxIn, f1.rxOut + f2.rxOut)
  }

  /** A sequence of actions, with the concatenated flows. Whatever was
      queued, followed by whatever entered, is exactly what left, followed
      by whatever is still queued: each ring is a FIFO over any interleaving
      of engine calls, so the count of live packets is the count before plus
      those accepted minus those taken. */
  function Run(n: Nic.Nic, acts: seq<Action>): (r: (Nic.Nic, Flow))
    requires Nic.Wf(n)
    ensures Nic.Wf(r.0)
    ensures Conserves(n, r.1, r.0)
    decreases |acts|
  {
    if acts == [] then (n, NoFlow)
    else
      var s := Step(n, acts[0]);
      var t := Run(s.0, acts[1..]);
      ConservesThen(n, s.1, s.0, t.1, t.0);
      (t.0, Then(s.1, t.1))
  }

  /** A run of one action is that action's step. */
  lemma RunOne(n: Nic.Nic, a: Action)
    requires Nic.Wf(n)
    ensures Run(n, [a]) == Step(n, a)
  {
    assert [a][1..] == [];
    ThenNoFlow(Step(n, a).1);
  }

  /** Running two stretches of actions one after the other is running
      their concatenation: the final state is the same and the flow is the
      first stretch's followed by the second's. */
  lemma {:induction false} RunAppend(n: Nic.Nic, a1: seq<Action>, a2: seq<Action>)
    requires Nic.Wf(n)
    ensures var r1 := Run(n, a1);
      var r2 := Run(r1.0, a2);
      Run(n, a1 + a2) == (r2.0, Then(r1.1, r2.1))
    decreases |a1|
  {
    if a1 == [] {
      assert a1 + a2 == a2;
      ThenNoFlow(Run(n, a2).1);
    } else {
      var s := Step(n, a1[0]);
      var rest := a1[1..];
      assert (a1 + a2)[0] == a1[0] && (a1 + a2)[1..] == rest + a2;
      RunCons(n, a1);
      RunCons(n, a1 + a2);
      RunAppend(s.0, rest, a2);
      var t := Run(s.0, rest);
      ThenAssoc(s.1, t.1, Run(t.0, a2).1);
    }
  }

  /** The unfolding of Run on a non-empty stretch. */
  lemma RunCons(n: Nic.Nic, acts: seq<Action>)
    requires Nic.Wf(n) && acts != []
    ensures var s := Step(n, acts[0]);
      var t := Run(s.0, acts[1..]);
      Run(n, acts) == (t.0, Then(s.1, t.1))
  {
  }

  lemma ThenNoFlow(f: Flow)
    ensures Then(NoFlow, f) == f && Then(f, NoFlow) == f
  {
    assert [] + f.txIn == f.txIn && [] + f.txOut == f.txOut && [] + f.rxIn == f.rxIn && [] + f.rxOut == f.rxOut;
    assert f.txIn + [] == f.txIn && f.txOut + [] == f.txOut && f.rxIn + [] == f.rxIn && f.rxOut + [] == f.rxOut;
  }

  lemma ThenAssoc(f1: Flow, f2: Flow, f3: Flow)
    ensures Then(Then(f1, f2), f3) == Then(f1, Then(f2, f3))
  {
  }

  /** The queue equation of one ring composes over two stretches. */
  lemma Chain(q0: seq<Pkt>, in1: seq<Pkt>, out1: seq<Pkt>, q1: seq<Pkt>,
              in2: seq<Pkt>, out2: seq<Pkt>, q2: seq<Pkt>)
    requires q0 + in1 == out1 + q1 && q1 + in2 == out2 + q2
    ensures q0 + (in1 + in2) == (out1 + out2) + q2
  {
    calc {
      q0 + (in1 + in2);
      (q0 + in1) + in2;
      out1 + (q1 + in2);
      out1 + (out2 + q2);
    }
  }

  /** Two stretches that each conserve packets conserve them together. */
  lemma ConservesThen(n: Nic.Nic, f1: Flow, n1: Nic.Nic, f2: Flow, n2: Nic.Nic)
    requires Nic.Wf(n) && Nic.Wf(n1) && Nic.Wf(n2)
    requires Conserves(n, f1, n1) && Conserves(n1, f2, n2)
    ensures Conserves(n, Then(f1, f2), n2)
  {
    Chain(Nic.TxQueue(n), f1.txIn, f1.txOut, Nic.TxQueue(n1), f2.txIn, f2.txOut, Nic.TxQueue(n2));
    Chain(Nic.RxQueue(n), f1.rxIn, f1.rxOut, Nic.RxQueue(n1), f2.rxIn, f2.rxOut, Nic.RxQueue(n2));
  }

  lemma PrefixOfConcat(a: seq<Pkt>, b: seq<Pkt>)
    ensures a <= a + b
  {
    assert (a + b)[..|a|] == a;
  }

  /** Starting from empty rings, the packets taken from each ring are a
      prefix of the packets accepted into it, in the same order. */
  lemma OutputIsPrefixOfInput(n: Nic.Nic, acts: seq<Action>)
    requires Nic.Wf(n) && Nic.TxQueue(n) == [] && Nic.RxQueue(n) == []
    ensures var r := Run(n, acts);
      && r.1.txOut <= r.1.txIn && r.1.txIn == r.1.txOut + Nic.TxQueue(r.0)
      && r.1.rxOut <= r.1.rxIn && r.1.rxIn == r.1.rxOut + Nic.RxQueue(r.0)
  {
    var r := Run(n, acts);
    var f := r.1;
    assert [] + f.txIn == f.txIn && [] + f.rxIn == f.rxIn;
    PrefixOfConcat(f.txOut, Nic.TxQueue(r.0));
    PrefixOfConcat(f.rxOut, Nic.RxQueue(r.0));
  }
}
