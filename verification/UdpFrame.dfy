/** The Ethernet, IPv4 and UDP frame that raw_eth_ipv4_udp_tx.c assembles in `sendbuf`, for any addresses and payload. */
module UdpFrame {
  import opened Bytes
  import opened InternetChecksum

  const ETH_FRAME_LEN := 1514
  const ETH_HDR_LEN := 14
  const IP_HDR_LEN := 20
  const UDP_HDR_LEN := 8
  const MAX_PAYLOAD := ETH_FRAME_LEN - ETH_HDR_LEN - IP_HDR_LEN - UDP_HDR_LEN

  type Mac = m: seq<Byte> | |m| == 6 witness [0, 0, 0, 0, 0, 0]
  type Address = a: seq<Byte> | |a| == 4 witness [0, 0, 0, 0]
  type Payload = d: seq<Byte> | |d| <= MAX_PAYLOAD

  /** htons(): the bytes of `w` in network order. */
  function Htons(w: Word): seq<Byte> {
    [w / 256, w % 256]
  }

  function EthernetHeader(src: Mac): seq<Byte> {
    [255, 255, 255, 255, 255, 255] + src + [8, 0]
  }

  /** With the checksum field, bytes 10 and 11, still zero. */
  function IpHeader(saddr: Address, daddr: Address, payload: nat): (h: seq<Byte>)
    requires payload <= MAX_PAYLOAD
    ensures |h| == IP_HDR_LEN && h[10] == 0 && h[11] == 0
  {
    [0x45, 0] + Htons(IP_HDR_LEN + UDP_HDR_LEN + payload) + Htons(12345) + [0, 0] + [64, 17] + [0, 0] + saddr + daddr
  }

  /** With the checksum field, bytes 6 and 7, still zero. */
  function UdpHeader(payload: nat): (h: seq<Byte>)
    requires payload <= MAX_PAYLOAD
    ensures |h| == UDP_HDR_LEN && h[6] == 0 && h[7] == 0
  {
    Htons(12345) + Htons(54321) + Htons(UDP_HDR_LEN + payload) + [0, 0]
  }

  function PseudoHeader(saddr: Address, daddr: Address, payload: nat): (h: seq<Byte>)
    requires payload <= MAX_PAYLOAD
    ensures |h| == 12
  {
    saddr + daddr + [0, 17] + Htons(UDP_HDR_LEN + payload)
  }

  function ChecksumOf(data: seq<Byte>): Word {
    FoldTwice(Sum(LittleEndian, data))
  }

  function IpPacketHeader(saddr: Address, daddr: Address, payload: nat): (h: seq<Byte>)
    requires payload <= MAX_PAYLOAD
    ensures |h| == IP_HDR_LEN
  {
    var h := IpHeader(saddr, daddr, payload);
    Patch(h, 10, Stored(ChecksumOf(h)))
  }

  function Datagram(saddr: Address, daddr: Address, data: Payload): (d: seq<Byte>)
    ensures |d| == UDP_HDR_LEN + |data|
  {
    var d := UdpHeader(|data|) + data;
    Patch(d, 6, Stored(ChecksumOf(PseudoHeader(saddr, daddr, |data|) + d)))
  }

  function Frame(src: Mac, saddr: Address, daddr: Address, data: Payload): (f: seq<Byte>) {
    EthernetHeader(src) + IpPacketHeader(saddr, daddr, |data|) + Datagram(saddr, daddr, data)
  }

  /** memcpy() into a buffer. */
  method Copy(dst: array<Byte>, at: nat, bytes: seq<Byte>)
    requires at + |bytes| <= dst.Length
    modifies dst
    ensures dst[..at] == old(dst[..at])
    ensures dst[at..at + |bytes|] == bytes
    ensures dst[at + |bytes|..] == old(dst[at + |bytes|..])
  {
    for k := 0 to |bytes|
      invariant forall i :: 0 <= i < dst.Length ==> dst[i] == if at <= i < at + k then bytes[i - at] else old(dst[i])
    {
      dst[at + k] := bytes[k];
    }
  }

  method AssembleIp(sendbuf: array<Byte>, saddr: Address, daddr: Address, payload: nat)
    requires sendbuf.Length == ETH_FRAME_LEN && payload <= MAX_PAYLOAD
    modifies sendbuf
    ensures sendbuf[..14] == old(sendbuf[..14])
    ensures sendbuf[14..34] == IpPacketHeader(saddr, daddr, payload)
  {
    ghost var h := IpHeader(saddr, daddr, payload);
    Copy(sendbuf, ETH_HDR_LEN, IpHeader(saddr, daddr, payload));
    ghost var after := sendbuf[..];
    assert after[14..34] == h;
    var check := Checksum(sendbuf, ETH_HDR_LEN, IP_HDR_LEN);
    Copy(sendbuf, ETH_HDR_LEN + 10, Stored(check));
    assert sendbuf[..24] == after[..24] && sendbuf[26..] == after[26..];
    assert sendbuf[14..34] == after[14..24] + sendbuf[24..26] + after[26..34];
    assert after[14..24] == h[..10] && after[26..34] == h[12..];
    assert sendbuf[..14] == after[..14];
  }

  method AssembleUdp(sendbuf: array<Byte>, saddr: Address, daddr: Address, data: Payload)
    requires sendbuf.Length == ETH_FRAME_LEN
    modifies sendbuf
    ensures sendbuf[..34] == old(sendbuf[..34])
    ensures sendbuf[34..42 + |data|] == Datagram(saddr, daddr, data)
  {
    var n := 42 + |data|;
    ghost var d := UdpHeader(|data|) + data;
    Copy(sendbuf, 34, UdpHeader(|data|));
    Copy(sendbuf, 42, data);
    ghost var after := sendbuf[..];
    assert after[34..n] == d;
    var check := PseudogramChecksum(saddr, daddr, |data|, sendbuf[34..n]);
    Copy(sendbuf, 40, Stored(check));
    assert sendbuf[..40] == after[..40] && sendbuf[42..] == after[42..];
    assert sendbuf[34..n] == after[34..40] + sendbuf[40..42] + after[42..n];
    assert after[34..40] == d[..6] && after[42..n] == d[8..];
    assert sendbuf[..34] == after[..34];
  }

  method PseudogramChecksum(saddr: Address, daddr: Address, payload: nat, datagram: seq<Byte>) returns (check: Word)
    requires payload <= MAX_PAYLOAD
    ensures check == ChecksumOf(PseudoHeader(saddr, daddr, payload) + datagram)
  {
    var psize := 12 + |datagram|;
    var pseudogram := new Byte[psize];
    Copy(pseudogram, 0, PseudoHeader(saddr, daddr, payload));
    Copy(pseudogram, 12, datagram);
    assert pseudogram[0..0 + psize] == pseudogram[..12] + pseudogram[12..];
    check := Checksum(pseudogram, 0, psize);
  }

  /** Whatever `sendbuf` held before, the bytes handed to sendto() are the frame. */
  method Assemble(sendbuf: array<Byte>, src: Mac, saddr: Address, daddr: Address, data: Payload) returns (txLen: nat)
    requires sendbuf.Length == ETH_FRAME_LEN
    modifies sendbuf
    ensures txLen == ETH_HDR_LEN + IP_HDR_LEN + UDP_HDR_LEN + |data|
    ensures sendbuf[..txLen] == Frame(src, saddr, daddr, data)
  {
    Copy(sendbuf, 0, EthernetHeader(src));
    AssembleIp(sendbuf, saddr, daddr, |data|);
    ghost var headers := sendbuf[..34];
    assert headers == sendbuf[..14] + sendbuf[14..34];
    AssembleUdp(sendbuf, saddr, daddr, data);
    txLen := ETH_HDR_LEN + IP_HDR_LEN + UDP_HDR_LEN + |data|;
    assert sendbuf[..txLen] == headers + sendbuf[34..txLen];
  }

  lemma HeaderVerifies(saddr: Address, daddr: Address, payload: nat)
    requires payload <= MAX_PAYLOAD
    ensures ChecksumOf(IpPacketHeader(saddr, daddr, payload)) == 0
  {
    var h := IpHeader(saddr, daddr, payload);
    VerifiesToZero(h, 10, ChecksumOf(h));
  }

  lemma DatagramVerifies(saddr: Address, daddr: Address, data: Payload)
    ensures ChecksumOf(PseudoHeader(saddr, daddr, |data|) + Datagram(saddr, daddr, data)) == 0
  {
    var p, d := PseudoHeader(saddr, daddr, |data|), UdpHeader(|data|) + data;
    var check := ChecksumOf(p + d);
    PatchBehind(p, d, 6, Stored(check));
    VerifiesToZero(p + d, 18, check);
  }

  lemma PatchBehind(p: seq<Byte>, d: seq<Byte>, at: nat, bytes: seq<Byte>)
    requires at + |bytes| <= |d|
    ensures p + Patch(d, at, bytes) == Patch(p + d, |p| + at, bytes)
  {
  }

  /** ntohs() of the two bytes at `at`. */
  function Ntohs(f: seq<Byte>, at: nat): int
    requires at + 2 <= |f|
  {
    256 * (f[at] as int) + f[at + 1] as int
  }

  /** The finished headers, at the places where section 3.1 of RFC 791 and RFC 768 put their fields. */
  lemma FrameFields(src: Mac, saddr: Address, daddr: Address, data: Payload)
    ensures var f := Frame(src, saddr, daddr, data);
      && |f| == 42 + |data|
      && f[..6] == [255, 255, 255, 255, 255, 255] && f[6..12] == src && Ntohs(f, 12) == 0x0800
      && f[14] == 0x45 && f[15] == 0 && Ntohs(f, 16) == |f| - 14 && Ntohs(f, 18) == 12345 && Ntohs(f, 20) == 0
      && f[22] == 64 && f[23] == 17 && f[26..30] == saddr && f[30..34] == daddr
      && Ntohs(f, 34) == 12345 && Ntohs(f, 36) == 54321 && Ntohs(f, 38) == |f| - 34
      && f[42..] == data
  {
    var f := Frame(src, saddr, daddr, data);
    var h, d := IpPacketHeader(saddr, daddr, |data|), Datagram(saddr, daddr, data);
    IpFields(saddr, daddr, |data|);
    UdpFields(saddr, daddr, data);
    assert f[14..34] == h && f[34..] == d;
    assert forall k :: 0 <= k < 20 ==> f[14 + k] == h[k];
    assert forall k :: 0 <= k < |d| ==> f[34 + k] == d[k];
    assert f[26..30] == h[12..16] && f[30..34] == h[16..20] && f[42..] == d[8..];
  }

  lemma IpFields(saddr: Address, daddr: Address, payload: nat)
    requires payload <= MAX_PAYLOAD
    ensures var h := IpPacketHeader(saddr, daddr, payload);
      && h[0] == 0x45 && h[1] == 0 && Ntohs(h, 2) == 28 + payload && Ntohs(h, 4) == 12345 && Ntohs(h, 6) == 0
      && h[8] == 64 && h[9] == 17 && h[12..16] == saddr && h[16..20] == daddr
  {
    var before, h := IpHeader(saddr, daddr, payload), IpPacketHeader(saddr, daddr, payload);
    assert forall k :: 0 <= k < 10 || 12 <= k < 20 ==> h[k] == before[k];
    assert h[12..16] == before[12..16] == saddr && h[16..20] == before[16..20] == daddr;
  }

  lemma UdpFields(saddr: Address, daddr: Address, data: Payload)
    ensures var d := Datagram(saddr, daddr, data);
      && Ntohs(d, 0) == 12345 && Ntohs(d, 2) == 54321 && Ntohs(d, 4) == 8 + |data| && d[8..] == data
  {
    var before, d := UdpHeader(|data|) + data, Datagram(saddr, daddr, data);
    assert forall k :: 0 <= k < 6 ==> d[k] == before[k] == UdpHeader(|data|)[k];
    assert d[8..] == before[8..] == data;
  }

  /** The pseudo-header as the receiver makes it up from the packet: addresses, zero, protocol, UDP length. */
  function ReceivedPseudoHeader(f: seq<Byte>): seq<Byte>
    requires |f| >= 42
  {
    f[26..34] + [0, f[23]] + f[38..40]
  }

  /** What the receiver checks, from the bytes of the frame alone: both checksums come out as zero. */
  lemma FrameVerifies(src: Mac, saddr: Address, daddr: Address, data: Payload)
    ensures var f := Frame(src, saddr, daddr, data);
      && 42 <= |f| <= ETH_FRAME_LEN
      && ChecksumOf(f[14..34]) == 0
      && ChecksumOf(ReceivedPseudoHeader(f) + f[34..]) == 0
  {
    var f := Frame(src, saddr, daddr, data);
    HeaderVerifies(saddr, daddr, |data|);
    DatagramVerifies(saddr, daddr, data);
    assert f[14..34] == IpPacketHeader(saddr, daddr, |data|);
    assert f[34..] == Datagram(saddr, daddr, data);
    PseudoHeaderInPlace(src, saddr, daddr, data);
  }

  lemma PseudoHeaderInPlace(src: Mac, saddr: Address, daddr: Address, data: Payload)
    ensures ReceivedPseudoHeader(Frame(src, saddr, daddr, data)) == PseudoHeader(saddr, daddr, |data|)
  {
    var f := Frame(src, saddr, daddr, data);
    FrameFields(src, saddr, daddr, data);
    assert f[26..34] == f[26..30] + f[30..34];
    var w := UDP_HDR_LEN + |data|;
    assert Ntohs(f, 38) == w;
    assert f[38] == w / 256 && f[39] == w % 256;
    assert f[38..40] == Htons(w);
  }
}
