/** The header-walk packet classifier (parse_pkt): an Ethernet header, then
    an IPv4 header taken as exactly 20 bytes whatever its IHL field says,
    then a UDP or TCP header; what follows is the payload. Each length check
    compares the frame length with the headers consumed so far, so a frame
    cut short anywhere in its headers is reported incomplete. The printing
    of header fields is not modelled; the payload bytes it prints are. */
module Classifier {
  import opened Net

  const EthHLen: nat := 14
  const IpHLen: nat := 20
  const UdpHLen: nat := 8
  const TcpHLen: nat := 20

  /** ETH_P_IP, and the IPPROTO_UDP / IPPROTO_TCP protocol numbers. */
  const EthPIp: nat := 0x0800
  const ProtoUdp: byte := 17
  const ProtoTcp: byte := 6

  /** Where the walk ends. */
  datatype Class = Incomplete | NonIp | NonUdpTcp | Payload(offset: nat)

  /** h_proto, read in network byte order. */
  function EtherType(p: seq<byte>): nat
    requires |p| >= EthHLen
  {
    p[12] as nat * 256 + p[13] as nat
  }

  /** The IPv4 header's protocol byte (offset 9 of the header that starts
      right after the Ethernet header). */
  function Protocol(p: seq<byte>): byte
    requires |p| >= EthHLen + IpHLen
  {
    p[EthHLen + 9]
  }

  /** The classification of a frame of |p| bytes. */
  function Classify(p: seq<byte>): (c: Class)
    ensures |p| < EthHLen ==> c == Incomplete
    ensures c == NonIp <==> |p| >= EthHLen && EtherType(p) != EthPIp
    ensures c == NonUdpTcp <==>
      |p| >= EthHLen + IpHLen && EtherType(p) == EthPIp && Protocol(p) != ProtoUdp && Protocol(p) != ProtoTcp
    ensures c.Payload? ==>
      && |p| >= EthHLen + IpHLen && EtherType(p) == EthPIp
      && (Protocol(p) == ProtoUdp || Protocol(p) == ProtoTcp)
      && c.offset == EthHLen + IpHLen + (if Protocol(p) == ProtoUdp then UdpHLen else TcpHLen)
      && c.offset <= |p|
  {
    if |p| < EthHLen then Incomplete
    else if EtherType(p) != EthPIp then NonIp
    else
      var afterEth := EthHLen;
      if |p| < afterEth + IpHLen then Incomplete
      else
        var afterIp := afterEth + IpHLen;
        if Protocol(p) == ProtoUdp then
          if |p| < afterIp + UdpHLen then Incomplete else Payload(afterIp + UdpHLen)
        else if Protocol(p) == ProtoTcp then
          if |p| < afterIp + TcpHLen then Incomplete else Payload(afterIp + TcpHLen)
        else
          NonUdpTcp
  }

  /** What parse_pkt reports: the class and, for a UDP or TCP frame, the
      payload bytes it dumps, in order. */
  datatype Parsed = Parsed(verdict: Class, payload: seq<byte>)

  function ParsePkt(p: seq<byte>): (r: Parsed)
    ensures r.verdict == Classify(p)
    ensures r.verdict.Payload? ==> |r.payload| == |p| - r.verdict.offset
    ensures r.verdict.Payload? ==> forall i :: 0 <= i < |r.payload| ==> r.payload[i] == p[r.verdict.offset + i]
    ensures !r.verdict.Payload? ==> r.payload == []
  {
    var c := Classify(p);
    if c.Payload? then Parsed(c, p[c.offset..]) else Parsed(c, [])
  }

  /** The transport protocols the walk understands. */
  datatype Transport = Udp | Tcp

  function ProtoOf(t: Transport): byte
  {
    match t
    case Udp => ProtoUdp
    case Tcp => ProtoTcp
  }

  function L4HLen(t: Transport): nat
  {
    match t
    case Udp => UdpHLen
    case Tcp => TcpHLen
  }

  function HeadersLen(t: Transport): nat
  {
    EthHLen + IpHLen + L4HLen(t)
  }

  /** An IPv4 frame built from its parts: the two MAC addresses, an IPv4
      header (whose protocol byte is set to the transport's), a transport
      header, and the payload. Nothing else of the headers is constrained. */
  function Build(macs: seq<byte>, ip: seq<byte>, t: Transport, l4: seq<byte>, payload: seq<byte>): (p: seq<byte>)
    requires |macs| == 12 && |ip| == IpHLen && |l4| == L4HLen(t)
    ensures |p| == HeadersLen(t) + |payload|
  {
    macs + [0x08, 0x00] + ip[9 := ProtoOf(t)] + l4 + payload
  }

  /** Parsing a built frame yields exactly the payload it was built with. */
  lemma ParseBuild(macs: seq<byte>, ip: seq<byte>, t: Transport, l4: seq<byte>, payload: seq<byte>)
    requires |macs| == 12 && |ip| == IpHLen && |l4| == L4HLen(t)
    ensures ParsePkt(Build(macs, ip, t, l4, payload)) == Parsed(Payload(HeadersLen(t)), payload)
  {
    var p := Build(macs, ip, t, l4, payload);
    assert p[12] == 0x08 && p[13] == 0x00;
    assert Protocol(p) == ProtoOf(t);
    assert p[HeadersLen(t)..] == payload;
  }

  /** Conversely, every frame the walk accepts is a built frame: its parts
      are read off at the fixed offsets. */
  lemma BuildParse(p: seq<byte>)
    requires Classify(p).Payload?
    ensures var t := if Protocol(p) == ProtoUdp then Udp else Tcp;
      && Classify(p).offset == HeadersLen(t)
      && p == Build(p[..12], p[14..34], t, p[34..HeadersLen(t)], p[HeadersLen(t)..])
  {
    var t := if Protocol(p) == ProtoUdp then Udp else Tcp;
    var ip := p[14..34];
    assert ip[9 := ProtoOf(t)] == ip;
    assert p[12..14] == [0x08, 0x00] by {
      assert EtherType(p) == EthPIp;
    }
    assert p == p[..12] + p[12..14] + ip + p[34..HeadersLen(t)] + p[HeadersLen(t)..];
  }

  /** A built frame cut short anywhere in its headers is incomplete. */
  lemma TruncatedIsIncomplete(macs: seq<byte>, ip: seq<byte>, t: Transport, l4: seq<byte>, payload: seq<byte>, k: nat)
    requires |macs| == 12 && |ip| == IpHLen && |l4| == L4HLen(t)
    requires k < HeadersLen(t)
    ensures Classify(Build(macs, ip, t, l4, payload)[..k]) == Incomplete
  {
    var p := Build(macs, ip, t, l4, payload);
    var q := p[..k];
    if k >= EthHLen {
      assert q[12] == 0x08 && q[13] == 0x00;
      if k >= EthHLen + IpHLen {
        assert Protocol(q) == ProtoOf(t);
      }
    }
  }

  /** Once the walk has reached a verdict other than Incomplete, bytes
      appended to the frame do not change it. */
  lemma ExtendKeepsVerdict(p: seq<byte>, q: seq<byte>)
    requires Classify(p) != Incomplete
    ensures Classify(p + q) == Classify(p)
  {
    var pq := p + q;
    assert pq[..|p|] == p;
    assert pq[12] == p[12] && pq[13] == p[13];
    if |p| >= EthHLen + IpHLen {
      assert Protocol(pq) == Protocol(p);
    }
  }

  /** The IHL field and every other header byte besides h_proto and the
      protocol byte are ignored: two frames of the same length that agree on
      bytes 12, 13 and 23 are classified alike. */
  lemma OnlyKeyBytesMatter(p: seq<byte>, q: seq<byte>)
    requires |p| == |q|
    requires |p| >= EthHLen ==> p[12] == q[12] && p[13] == q[13]
    requires |p| >= EthHLen + IpHLen ==> p[23] == q[23]
    ensures Classify(p) == Classify(q)
  {
  }
}
