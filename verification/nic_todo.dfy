/** The two ring accesses of the NIC engine as the code literally writes
    them: nic_hw_tx_pkt stores the packet in slot 0 rather than at tx_drv,
    and nic_hw_rx_pkt clears slot 0 rather than the slot at rx_drv it has
    just read. Each is shown to break the live-slot invariant of the ring
    on a two-packet run from a freshly opened NIC, while the engine of
    module Nic, which uses the producer and consumer indices, keeps it. */
module NicTodo {
  import opened Net
  import Ring
  import Nic

  /** Both rings have their fixed capacities and in-range indices; the
      written code relies on nothing more. */
  predicate Shaped(n: Nic.Nic)
  {
    && Ring.Indexed(n.tx) && Ring.Cap(n.tx) == Nic.NUM_TX_DESC
    && Ring.Indexed(n.rx) && Ring.Cap(n.rx) == Nic.NUM_RX_DESC
  }

  /** nic_hw_tx_pkt as written: the guard and the index update are the
      engine's, but the store goes to slot 0. */
  function HwTxPktAsWritten(n: Nic.Nic, skb: Pkt): (r: Nic.Sent)
    requires Shaped(n)
    ensures Shaped(r.nic)
    ensures r.ret == 0 <==> n.ready && Ring.Count(n.tx) < Nic.NUM_TX_DESC - 1
    ensures r.ret == 0 ==> r.nic.tx.slots == n.tx.slots[0 := Some(skb)]
    ensures r.ret == 0 ==> r.nic.tx.prod == (n.tx.prod + 1) % Nic.NUM_TX_DESC
    ensures r.ret != 0 ==> r.nic == n
  {
    Ring.EmptyFullIffCount(n.tx);
    if n.ready && !Ring.IsFull(n.tx) then
      var tx := Ring.Ring(n.tx.slots[0 := Some(skb)], Ring.Next(n.tx.prod, Nic.NUM_TX_DESC), n.tx.cons);
      Nic.Sent(n.(tx := tx, log := n.log + [NapiSchedule]), 0)
    else
      Nic.Sent(n, -1)
  }

  /** nic_hw_rx_pkt as written: it returns the packet at rx_drv and advances
      rx_drv, but clears slot 0. */
  function HwRxPktAsWritten(n: Nic.Nic): (r: Nic.RxResult)
    requires Shaped(n)
    ensures Shaped(r.nic)
    ensures n.rx.prod == n.rx.cons ==> r.skb == None && r.nic == n
    ensures n.rx.prod != n.rx.cons ==>
      && r.skb == n.rx.slots[n.rx.cons]
      && r.nic.rx.slots == n.rx.slots[0 := None]
      && r.nic.rx.cons == (n.rx.cons + 1) % Nic.NUM_RX_DESC
  {
    if n.rx.prod != n.rx.cons then
      var skb := n.rx.slots[n.rx.cons];
      var rx := Ring.Ring(n.rx.slots[0 := None], n.rx.prod, Ring.Next(n.rx.cons, Nic.NUM_RX_DESC));
      Nic.RxResult(n.(rx := rx), skb)
    else
      Nic.RxResult(n, None)
  }

  /** A NIC after nic_setup_buffers and nic_hw_init. */
  function Opened(): (n: Nic.Nic)
    ensures Nic.Wf(n) && n.ready && Nic.TxQueue(n) == [] && Nic.RxQueue(n) == []
    ensures n.tx.prod == n.tx.cons == 0
    ensures forall i :: 0 <= i < Nic.NUM_TX_DESC ==> n.tx.slots[i] == None
  {
    Nic.HwInit(Nic.SetupBuffers(Nic.Initial()))
  }

  /** A transmit ring two packets ahead whose only occupied slot is slot 0
      breaks the live-slot invariant (slot 1 is live but empty) and holds no
      packet other than the one in slot 0. */
  lemma OverwrittenRing(p1: Pkt, p2: Pkt, w: Ring.Ring)
    requires p1 != p2
    requires |w.slots| == Nic.NUM_TX_DESC && w.prod == 2 && w.cons == 0
    requires w.slots[0] == Some(p2)
    requires forall i :: 1 <= i < Nic.NUM_TX_DESC ==> w.slots[i] == None
    ensures !Ring.Valid(w)
    ensures forall i :: 0 <= i < Nic.NUM_TX_DESC ==> w.slots[i] != Some(p1)
  {
    assert Ring.Count(w) == 2;
    assert !(w.slots[1].Some? <==> Ring.Dist(w.cons, 1, Ring.Cap(w)) < Ring.Count(w));
  }

  /** Two transmissions as written: the second overwrites the first in
      slot 0, slot 1 stays empty although it lies between tx_nic and tx_drv,
      and the first packet is in no slot at all, so it is never transmitted
      and never freed. The engine queues both, in order. */
  lemma TxPlaceholderLosesPacket()
    ensures var p1, p2 := Pkt(1, []), Pkt(2, []);
      var w := HwTxPktAsWritten(HwTxPktAsWritten(Opened(), p1).nic, p2).nic;
      var c := Nic.HwTxPkt(Nic.HwTxPkt(Opened(), p1).nic, p2).nic;
      && !Ring.Valid(w.tx)
      && (forall i :: 0 <= i < Nic.NUM_TX_DESC ==> w.tx.slots[i] != Some(p1))
      && Nic.Wf(c) && Nic.TxQueue(c) == [p1, p2]
  {
    var p1, p2 := Pkt(1, []), Pkt(2, []);
    var n0 := Opened();
    var w1 := HwTxPktAsWritten(n0, p1).nic;
    var w := HwTxPktAsWritten(w1, p2).nic;
    assert w.tx.slots == n0.tx.slots[0 := Some(p1)][0 := Some(p2)];
    OverwrittenRing(p1, p2, w.tx);
    var c1 := Nic.HwTxPkt(n0, p1).nic;
    assert Nic.TxQueue(c1) == [p1];
  }

  /** Two deliveries and two receives as written: the second receive returns
      the packet in slot 1 but clears slot 0 again, so slot 1 still points at
      a buffer already handed to the stack while the ring reads as empty. The
      engine leaves every slot empty. */
  lemma RxPlaceholderLeavesStaleSlot()
    ensures var p1, p2 := Pkt(1, []), Pkt(2, []);
      var n := Nic.StartXmit(Nic.StartXmit(Opened(), p1).nic, p2).nic;
      var w1 := HwRxPktAsWritten(n);
      var w2 := HwRxPktAsWritten(w1.nic);
      var c := Nic.HwRxPkt(Nic.HwRxPkt(n).nic).nic;
      && w1.skb == Some(p1) && w2.skb == Some(p2)
      && w2.nic.rx.prod == w2.nic.rx.cons
      && w2.nic.rx.slots[1] == Some(p2)
      && !Ring.Valid(w2.nic.rx)
      && Nic.Wf(c) && Nic.RxQueue(c) == []
  {
    var p1, p2 := Pkt(1, []), Pkt(2, []);
    var n0 := Opened();
    var n1 := Nic.StartXmit(n0, p1).nic;
    assert Nic.RxQueue(n1) == [p1];
    var n := Nic.StartXmit(n1, p2).nic;
    assert Nic.RxQueue(n) == [p1, p2];
    assert n.rx.prod == 2 && n.rx.cons == 0;
    assert n.rx.slots[0] == Some(p1) by { assert Ring.Pos(n.rx, 0) == 0; }
    assert n.rx.slots[1] == Some(p2) by { assert Ring.Pos(n.rx, 1) == 1; }
    var w1 := HwRxPktAsWritten(n);
    var w2 := HwRxPktAsWritten(w1.nic);
    assert w2.nic.rx.slots[1] == Some(p2);
    assert Ring.Count(w2.nic.rx) == 0;
    var c1 := Nic.HwRxPkt(n);
    assert Nic.RxQueue(c1.nic) == [p2];
  }
}
