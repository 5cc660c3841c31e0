/** The test-frame builder of the user-space network tool (prepare_pkt): it
    fills in an Ethernet header with fixed addresses and a zero EtherType,
    then numbers every byte after the header with its own offset. The
    builder is given in its evidently intended form, where any length below
    the Ethernet header size (negative ones included) is refused, and as
    written, where the length check compares the signed length as an
    unsigned size so that a negative length passes it. */
module NetOps {
  import opened Net
  import opened Classifier

  /** The destination and source MAC addresses the builder writes. */
  const DstMac: seq<byte> := [0x5A, 0x5A, 0x5A, 0x5A, 0x5A, 0x5A]
  const SrcMac: seq<byte> := [0x00, 0x01, 0x02, 0x03, 0x04, 0x05]

  /** The byte at offset k of a prepared buffer: the header, then the byte
      offset itself truncated to an unsigned char up to `len`, then whatever
      the buffer held. */
  function PreparedByte(buf: seq<byte>, len: int, k: nat): byte
    requires k < |buf|
  {
    if k < 6 then DstMac[k]
    else if k < 12 then SrcMac[k - 6]
    else if k < EthHLen then 0
    else if k < len then (k % 256) as byte
    else buf[k]
  }

  /** The whole buffer after the header and the numbered bytes are written. */
  function Prepared(buf: seq<byte>, len: int): (p: seq<byte>)
    requires |buf| >= EthHLen
    ensures |p| == |buf|
    ensures forall k :: 0 <= k < |buf| ==> p[k] == PreparedByte(buf, len, k)
  {
    seq(|buf|, k requires 0 <= k < |buf| => PreparedByte(buf, len, k))
  }

  /** prepare_pkt with the length check the code evidently intends: a length
      below the Ethernet header size is refused with 0 and the buffer is
      left alone; otherwise the header and the numbered bytes are written
      and the length is returned. */
  method PreparePkt(buf: seq<byte>, len: int) returns (pkt: seq<byte>, ret: int)
    requires len < EthHLen || len <= |buf|
    ensures len < EthHLen ==> pkt == buf && ret == 0
    ensures len >= EthHLen ==> ret == len && pkt == Prepared(buf, len)
  {
    if len < EthHLen {
      return buf, 0;
    }
    pkt := DstMac + SrcMac + [0, 0] + buf[EthHLen..];
    var i := EthHLen;
    while i < len
      invariant EthHLen <= i <= len
      invariant |pkt| == |buf|
      invariant forall k :: 0 <= k < |buf| ==> pkt[k] == (if k < i then PreparedByte(buf, len, k) else buf[k])
    {
      pkt := pkt[i := (i % 256) as byte];
      i := i + 1;
    }
    ret := len;
  }

  /** C's int, whose range bounds the length argument. */
  predicate IsInt(x: int)
  {
    -0x8000_0000 <= x < 0x8000_0000
  }

  /** A signed length converted to size_t for the comparison with
      parsed_hdr_size + sizeof(struct ethhdr). */
  function AsSize(x: int): nat
  {
    x % 0x1_0000_0000_0000_0000
  }

  /** prepare_pkt as written: the guard compares the length as an unsigned
      size, so only 0 <= len < 14 is refused. A negative length writes the
      header into the buffer, numbers no byte (the loop compares signed) and
      is returned as it came. */
  function PreparePktAsWritten(buf: seq<byte>, len: int): (r: (seq<byte>, int))
    requires IsInt(len)
    requires (0 <= len < EthHLen) || (EthHLen <= |buf| && len <= |buf|)
    ensures r.1 == 0 <==> 0 <= len < EthHLen
    ensures 0 <= len < EthHLen ==> r.0 == buf
    ensures !(0 <= len < EthHLen) ==> r.1 == len && r.0 == Prepared(buf, len)
  {
    if AsSize(len) < EthHLen then (buf, 0) else (Prepared(buf, len), len)
  }

  /** With len = -1 the written code overwrites the header of the buffer and
      returns -1, where a length below the header size should be refused
      with 0 and the buffer left alone. */
  lemma NegativeLengthPassesGuard()
    ensures var buf := seq(EthHLen, k => 0 as byte);
      var r := PreparePktAsWritten(buf, -1);
      && r.1 == -1
      && r.0[..6] == DstMac && r.0 != buf
  {
    var buf := seq(EthHLen, k => 0 as byte);
    var r := PreparePktAsWritten(buf, -1);
    assert r.0[0] == 0x5A && buf[0] == 0;
  }

  /** Every frame the builder produces, cut to the returned length, is
      classified as not IP: its EtherType is zero. The frame is therefore
      never reported as carrying a payload. */
  lemma PreparedIsNonIp(buf: seq<byte>, len: int)
    requires EthHLen <= len <= |buf|
    ensures Classify(Prepared(buf, len)[..len]) == NonIp
    ensures ParsePkt(Prepared(buf, len)[..len]).payload == []
  {
    var p := Prepared(buf, len)[..len];
    assert p[12] == 0 && p[13] == 0;
  }

  /** What the builder sends does not depend on what the buffer held
      before: the first `len` bytes are determined by `len` alone. */
  lemma PreparedIgnoresOldContents(buf: seq<byte>, buf': seq<byte>, len: int)
    requires EthHLen <= len <= |buf| && len <= |buf'|
    ensures Prepared(buf, len)[..len] == Prepared(buf', len)[..len]
  {
  }
}
