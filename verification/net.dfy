/** Vocabulary shared by every part of the network-driver model: bytes,
    socket buffers, the statistics block of a network device, and the
    calls a component makes into the kernel or into the NIC layer, which
    the model records in an event log instead of performing. */
module Net {

  newtype byte = x: int | 0 <= x < 256

  datatype Option<+T> = None | Some(value: T)

  /** A socket buffer. `id` stands for the buffer's identity (its address),
      `data` for the bytes between skb->data and skb->data + skb->len. */
  datatype Pkt = Pkt(id: nat, data: seq<byte>) {
    function Len(): nat { |data| }
  }

  /** The fields of struct net_device_stats that the drivers update.
      The kernel's counters are unsigned long; they are unbounded here. */
  datatype Stats = Stats(rxPackets: nat, txPackets: nat, rxBytes: nat, txBytes: nat,
                         rxErrors: nat, txErrors: nat, txDropped: nat)

  /** What memset(&dev->stats, 0, sizeof(dev->stats)) leaves behind. */
  const ZeroStats: Stats := Stats(0, 0, 0, 0, 0, 0, 0)

  /** Identity of an interrupt handler function pointer: the handlers of the
      two ring-based drivers, or any other function. */
  datatype Callback = EndHandler | NdHandler | OtherHandler(addr: nat)

  /** A handler parameter (an opaque pointer value). */
  type Param = nat

  /** The NIC-layer entry points whose call order the drivers promise. */
  datatype NicCall =
    | SetupBuffers | CleanupBuffers
    | RegisterHandler | UnregisterHandler
    | EnableIntr | DisableIntr
    | HwInit | HwShut

  /** Calls a component makes that leave its own state: NAPI bookkeeping of
      the component's own napi_struct, hand-over of a buffer to the stack,
      release of a buffer, invocation of a registered handler, or a call
      into the NIC layer. */
  datatype Event =
    | NapiEnable | NapiDisable | NapiSchedule | NapiComplete
    | GroReceive(skb: Pkt)
    | FreeSkb(skb: Pkt)
    | HandlerCall(cb: Callback, param: Option<Param>)
    | Call(op: NicCall)

  /** Sum of the lengths of a sequence of packets. */
  function TotalLen(s: seq<Pkt>): nat
  {
    if s == [] then 0 else TotalLen(s[..|s| - 1]) + s[|s| - 1].Len()
  }

  /** One napi_gro_receive per packet, in order. */
  function Received(s: seq<Pkt>): (es: seq<Event>)
    ensures |es| == |s|
    ensures forall i :: 0 <= i < |s| ==> es[i] == GroReceive(s[i])
  {
    if s == [] then [] else Received(s[..|s| - 1]) + [GroReceive(s[|s| - 1])]
  }

  /** One dev_kfree_skb per packet, in order. */
  function Freed(s: seq<Pkt>): (es: seq<Event>)
    ensures |es| == |s|
    ensures forall i :: 0 <= i < |s| ==> es[i] == FreeSkb(s[i])
  {
    if s == [] then [] else Freed(s[..|s| - 1]) + [FreeSkb(s[|s| - 1])]
  }

  /** Extending a prefix by one packet extends its total length and its
      hand-over events by that packet. */
  lemma PrefixStep(q: seq<Pkt>, k: nat)
    requires k < |q|
    ensures TotalLen(q[..k + 1]) == TotalLen(q[..k]) + q[k].Len()
    ensures Received(q[..k + 1]) == Received(q[..k]) + [GroReceive(q[k])]
  {
    assert q[..k + 1][..k] == q[..k];
  }

  function Min(a: nat, b: nat): nat
  {
    if a <= b then a else b
  }
}
