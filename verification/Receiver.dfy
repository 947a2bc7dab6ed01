/** What the receiver of a finished packet finds: every automatic checksum verifies against the
final headers around it, and the protocol fields name what is inside. */
module Receiver {
  import opened Bytes
  import opened Csum
  import opened Headers
  import opened SendipModule
  import opened Encapsulation
  import Ipv4
  import Ipv6
  import Transport
  import Udp
  import Tcp
  import Icmp
  import Esp
  import EspReceiver
  import Fields
  import Wesp

  // ----- the IP header around a transport header

  /** Once the protocol of an IPv4 header is fixed, nothing changes it any more. */
  lemma {:induction false} SeenFixed(crypto: Esp.Crypto, ls: seq<Layer>, j: nat, m: nat, k: nat)
    requires Sound(crypto, ls) && j < m <= k <= |ls|
    requires ls[j].kind == 'i' ==> Has(Seen(crypto, ls, j, k).modified, Ipv4.IP_MOD_PROTOCOL)
    ensures Seen(crypto, ls, j, m) == Seen(crypto, ls, j, k)
    decreases k - m
  {
    hide Sound, OuterIp, TransportProtocol, Has;
    if m < k {
      SeenFixed(crypto, ls, j, m + 1, k);
    }
  }

  lemma ClaimSets(modified: bv32)
    ensures Has(modified | Ipv4.IP_MOD_PROTOCOL, Ipv4.IP_MOD_PROTOCOL)
  {
  }

  /** The header a transport module checksums against has its protocol fixed. */
  lemma ClaimedIsFixed(crypto: Esp.Crypto, ls: seq<Layer>, k: nat)
    requires Sound(crypto, ls) && k < |ls| && IsTransport(ls[k].kind)
    ensures 0 <= OuterIp(ls, k) < k
    ensures ls[OuterIp(ls, k)].kind == 'i' ==> Has(Seen(crypto, ls, OuterIp(ls, k), k).modified, Ipv4.IP_MOD_PROTOCOL)
  {
    hide Sound, OuterIp, Seen, Has;
    IpHeaderRoom(crypto, ls, k);
    var j := OuterIp(ls, k);
    SeenStep(crypto, ls, k, j);
    ClaimSets(Seen(crypto, ls, j, k + 1).modified);
  }

  /** No default of ipv4.c but that of the protocol touches the protocol or the addresses. */
  lemma FilledKeeps(h: seq<byte>, modified: bv32, inside: nat, rand: nat, from: nat, to: nat)
    requires |h| >= 20 && 9 <= from <= to <= |h|
    ensures Ipv4.Filled(h, modified, inside, rand)[from..to] == h[from..to]
  {
    hide Has, Nibbles, Be16, Le16, Unless;
    var h1 := Unless(Has(modified, Ipv4.IP_MOD_VERSION), h, 0, [Nibbles(4, h[0])]);
    var h2 := Unless(Has(modified, Ipv4.IP_MOD_HEADERLEN), h1, 0, [Nibbles(h1[0] / 16, (|h| + 3) / 4)]);
    var h3 := Unless(Has(modified, Ipv4.IP_MOD_TOTLEN), h2, 2, Be16(|h| + inside));
    var h4 := Unless(Has(modified, Ipv4.IP_MOD_ID), h3, 4, Le16(rand));
    UnlessKeeps(Has(modified, Ipv4.IP_MOD_VERSION), h, 0, [Nibbles(4, h[0])], from, to);
    UnlessKeeps(Has(modified, Ipv4.IP_MOD_HEADERLEN), h1, 0, [Nibbles(h1[0] / 16, (|h| + 3) / 4)], from, to);
    UnlessKeeps(Has(modified, Ipv4.IP_MOD_TOTLEN), h2, 2, Be16(|h| + inside), from, to);
    UnlessKeeps(Has(modified, Ipv4.IP_MOD_ID), h3, 4, Le16(rand), from, to);
    UnlessKeeps(Has(modified, Ipv4.IP_MOD_TTL), h4, 8, [255], from, to);
  }

  lemma ChecksumKeeps(h: seq<byte>, from: nat, to: nat)
    requires |h| >= 20 && from <= to <= |h| && (to <= 10 || 12 <= from)
    ensures Ipv4.WithChecksum(h)[from..to] == h[from..to]
  {
    hide Checksum, Le16, Poke;
    var z := Poke(h, 10, [0, 0]);
    PokeKeeps(h, 10, [0, 0], from, to);
    PokeKeeps(z, 10, Le16(Checksum(z)), from, to);
  }

  lemma PokeKeeps(h: seq<byte>, at: nat, v: seq<byte>, from: nat, to: nat)
    requires at + |v| <= |h| && from <= to <= |h| && (to <= at || at + |v| <= from)
    ensures Poke(h, at, v)[from..to] == h[from..to]
  {
  }

  lemma Ipv4Keeps(h: seq<byte>, modified: bv32, next: char, inside: nat, rand: nat, from: nat, to: nat)
    requires |h| >= 20 && 9 <= from <= to <= |h| && (to <= 10 || 12 <= from)
    requires from < 10 ==> Has(modified, Ipv4.IP_MOD_PROTOCOL)
    ensures Ipv4.Finalized(h, modified, next, inside, rand)[from..to] == h[from..to]
  {
    hide Has, Ipv4.Filled, Ipv4.WithChecksum, ProtocolOf;
    var f := Ipv4.Filled(h, modified, inside, rand);
    var c := if Has(modified, Ipv4.IP_MOD_CHECK) then f else Ipv4.WithChecksum(f);
    FilledKeeps(h, modified, inside, rand, from, to);
    ChecksumKeeps(f, from, to);
    if from >= 10 {
      UnlessKeeps(Has(modified, Ipv4.IP_MOD_PROTOCOL), c, 9, [ProtocolOf(next)], from, to);
    }
  }

  lemma Ipv4KeepsAddresses(h: seq<byte>, modified: bv32, next: char, inside: nat, rand: nat)
    requires |h| >= 20
    ensures Ipv4.Finalized(h, modified, next, inside, rand)[12..20] == h[12..20]
    ensures Has(modified, Ipv4.IP_MOD_PROTOCOL) ==> Ipv4.Finalized(h, modified, next, inside, rand)[9] == h[9]
  {
    hide Has, Ipv4.Finalized;
    var f := Ipv4.Finalized(h, modified, next, inside, rand);
    Ipv4Keeps(h, modified, next, inside, rand, 12, 20);
    if Has(modified, Ipv4.IP_MOD_PROTOCOL) {
      Ipv4Keeps(h, modified, next, inside, rand, 9, 10);
      assert f[9..10][0] == h[9..10][0];
    }
  }

  lemma Ipv6KeepsAddresses(h: seq<byte>, modified: bv32, next: char, inside: nat)
    requires |h| >= 40
    ensures Ipv6.Finalized(h, modified, next, inside)[8..40] == h[8..40]
  {
    hide Has, ProtocolOf, Nibbles, Be16, Unless;
    var h1 := Unless(Has(modified, Ipv6.IPV6_MOD_VERSION), h, 0, [Nibbles(6, h[0])]);
    var h2 := Unless(Has(modified, Ipv6.IPV6_MOD_PLEN), h1, 4, Be16(inside));
    var h3 := Unless(Has(modified, Ipv6.IPV6_MOD_NXT), h2, 6, [ProtocolOf(next)]);
    UnlessKeeps(Has(modified, Ipv6.IPV6_MOD_VERSION), h, 0, [Nibbles(6, h[0])], 8, 40);
    UnlessKeeps(Has(modified, Ipv6.IPV6_MOD_PLEN), h1, 4, Be16(inside), 8, 40);
    UnlessKeeps(Has(modified, Ipv6.IPV6_MOD_NXT), h2, 6, [ProtocolOf(next)], 8, 40);
    UnlessKeeps(Has(modified, Ipv6.IPV6_MOD_HLIM), h3, 7, [32], 8, 40);
  }

  /** The finished IP header around transport header k, as it stands in the packet. */
  function FinalIp(crypto: Esp.Crypto, ls: seq<Layer>, payload: seq<byte>, k: nat): (h: seq<byte>)
    requires Sound(crypto, ls) && k < |ls| && IsTransport(ls[k].kind)
    ensures |h| >= (if ls[OuterIp(ls, k)].kind == 'i' then 20 else 40)
  {
    IpHeaderRoom(crypto, ls, k);
    var j := OuterIp(ls, k);
    FinishedHeader(crypto, ls, j, Nest(crypto, ls, payload, j + 1))
  }

  /** That header is the front of the packet from there on. */
  lemma FinalIpIsInPacket(crypto: Esp.Crypto, ls: seq<Layer>, payload: seq<byte>, k: nat)
    requires Sound(crypto, ls) && k < |ls| && IsTransport(ls[k].kind)
    ensures FinalIp(crypto, ls, payload, k) <= Nest(crypto, ls, payload, OuterIp(ls, k))
  {
    hide Sound, FinishedHeader, OuterIp, Seen, Outer;
    IpHeaderRoom(crypto, ls, k);
    NestStep(crypto, ls, payload, OuterIp(ls, k));
  }

  /** Addresses and protocol used at checksum time are those of the finished packet. */
  lemma ChecksummedIsFinal(crypto: Esp.Crypto, ls: seq<Layer>, payload: seq<byte>, k: nat)
    requires Sound(crypto, ls) && k < |ls| && IsTransport(ls[k].kind)
    ensures 0 <= OuterIp(ls, k) < k
    ensures var j := OuterIp(ls, k);
      var ip, final := Seen(crypto, ls, j, k).bytes, FinalIp(crypto, ls, payload, k);
      && |ip| == |final|
      && (ls[j].kind == 'i' ==> |ip| >= 20 && ip[12..20] == final[12..20] && ip[9] == final[9])
      && (ls[j].kind == '6' ==> |ip| >= 40 && ip[8..40] == final[8..40])
  {
    hide Sound, OuterIp, Seen, Has, Ipv4.Finalized, Ipv6.Finalized, Nest, InnerIp;
    IpHeaderRoom(crypto, ls, k);
    var j := OuterIp(ls, k);
    ClaimedIsFixed(crypto, ls, k);
    SeenFixed(crypto, ls, j, j + 1, k);
    var l := Seen(crypto, ls, j, k);
    var inside := Nest(crypto, ls, payload, j + 1);
    if ls[j].kind == 'i' {
      Ipv4KeepsAddresses(l.bytes, l.modified, NextKind(ls, j), |inside|, l.rand);
    } else {
      Ipv6KeepsAddresses(l.bytes, l.modified, NextKind(ls, j), |inside|);
    }
  }

  // ----- checksums

  /** A header with its checksum filled in verifies together with pseudo header and data. */
  lemma CheckedVerifies(h: seq<byte>, at: nat, pseudo: seq<byte>, inside: seq<byte>)
    requires at % 2 == 0 && at + 2 <= |h| && |pseudo| % 2 == 0
    ensures Checksum(pseudo + Transport.Checked(h, at, pseudo, inside) + inside) == 0
  {
    hide Checksum;
    var z := Poke(h, at, [0, 0]);
    var s := pseudo + z + inside;
    var c := Checksum(s);
    InsertedChecksumVerifies(s, |pseudo| + at);
    assert Poke(s, |pseudo| + at, Le16(c)) == pseudo + Poke(z, at, Le16(c)) + inside;
  }

  /** The pseudo header of RFC 768 and RFC 793 over the final IPv4 header. */
  function Ipv4Pseudo(ip: seq<byte>, length: nat): (p: seq<byte>)
    requires |ip| >= 20
    ensures |p| == 12
  {
    ip[12..16] + ip[16..20] + [0, ip[9]] + Be16(length)
  }

  /** The pseudo header of RFC 8200, section 8.1. */
  function Ipv6Pseudo(ip: seq<byte>, length: nat, nextHeader: byte): (p: seq<byte>)
    requires |ip| >= 40
    ensures |p| == 40
  {
    ip[8..24] + ip[24..40] + Be32(length) + [0, 0, 0, nextHeader]
  }

  /** The transport segment is the finished transport header and everything inside it. */
  lemma SegmentIs(crypto: Esp.Crypto, ls: seq<Layer>, payload: seq<byte>, k: nat)
    requires Sound(crypto, ls) && k < |ls| && IsTransport(ls[k].kind)
    ensures 0 <= OuterIp(ls, k) < k
    ensures var ip, inside := Seen(crypto, ls, OuterIp(ls, k), k), Nest(crypto, ls, payload, k + 1);
      && |ls[k].bytes| >= Smallest(ls[k].kind) && |ip.bytes| >= (if ip.kind == 'i' then 20 else 40)
      && Nest(crypto, ls, payload, k) == FinishedTransport(ls[k], ip.kind, ip.bytes, inside) + inside
  {
    hide Sound, Seen, OuterIp, FinishedTransport;
    IpHeaderRoom(crypto, ls, k);
  }

  /** TCP over IPv4 verifies in the finished packet. */
  lemma TcpVerifies(crypto: Esp.Crypto, ls: seq<Layer>, payload: seq<byte>, k: nat)
    requires Sound(crypto, ls) && k < |ls| && ls[k].kind == 't' && ls[OuterIp(ls, k)].kind == 'i'
    requires !Has(ls[k].modified, Tcp.TCP_MOD_CHECK)
    ensures var segment := Nest(crypto, ls, payload, k);
      Checksum(Ipv4Pseudo(FinalIp(crypto, ls, payload, k), |segment|) + segment) == 0
  {
    hide Sound, OuterIp, Seen, Nest, Has, FinalIp, Checksum, Tcp.Filled, Transport.Checked, Be16;
    SegmentIs(crypto, ls, payload, k);
    ChecksummedIsFinal(crypto, ls, payload, k);
    var l, ip := ls[k], Seen(crypto, ls, OuterIp(ls, k), k).bytes;
    var final, inside := FinalIp(crypto, ls, payload, k), Nest(crypto, ls, payload, k + 1);
    var pseudo := Tcp.Pseudo('i', ip, |l.bytes| + |inside|);
    var f := Tcp.Filled(l.bytes, l.modified, l.rand);
    CheckedVerifies(f, 16, pseudo, inside);
    assert final[12..16] + final[16..20] == ip[12..20];
    assert pseudo == Ipv4Pseudo(final, |l.bytes| + |inside|);
    assert pseudo + Transport.Checked(f, 16, pseudo, inside) + inside
      == pseudo + (Transport.Checked(f, 16, pseudo, inside) + inside);
  }

  /** UDP over IPv4 verifies in the finished packet. */
  lemma UdpVerifies(crypto: Esp.Crypto, ls: seq<Layer>, payload: seq<byte>, k: nat)
    requires Sound(crypto, ls) && k < |ls| && ls[k].kind == 'u' && ls[OuterIp(ls, k)].kind == 'i'
    requires !Has(ls[k].modified, Udp.UDP_MOD_CHECK)
    ensures var segment := Nest(crypto, ls, payload, k);
      Checksum(Ipv4Pseudo(FinalIp(crypto, ls, payload, k), |segment|) + segment) == 0
  {
    hide Sound, OuterIp, Seen, Nest, Has, FinalIp, Checksum, Unless, Transport.Checked, Be16;
    SegmentIs(crypto, ls, payload, k);
    ChecksummedIsFinal(crypto, ls, payload, k);
    var l, ip := ls[k], Seen(crypto, ls, OuterIp(ls, k), k).bytes;
    var final, inside := FinalIp(crypto, ls, payload, k), Nest(crypto, ls, payload, k + 1);
    var n := |l.bytes| + |inside|;
    var f := Unless(Has(l.modified, Udp.UDP_MOD_LEN), l.bytes, 4, Be16(n));
    var pseudo := Udp.Pseudo('i', ip, f, n);
    CheckedVerifies(f, 6, pseudo, inside);
    assert final[12..16] + final[16..20] == ip[12..20];
    assert pseudo == Ipv4Pseudo(final, n);
    assert pseudo + Transport.Checked(f, 6, pseudo, inside) + inside
      == pseudo + (Transport.Checked(f, 6, pseudo, inside) + inside);
  }

  /** ICMP over IPv4, which has no pseudo header, verifies in the finished packet. */
  lemma IcmpVerifies(crypto: Esp.Crypto, ls: seq<Layer>, payload: seq<byte>, k: nat)
    requires Sound(crypto, ls) && k < |ls| && ls[k].kind == 'c' && ls[OuterIp(ls, k)].kind == 'i'
    requires !Has(ls[k].modified, Icmp.ICMP_MOD_CHECK)
    ensures Checksum(Nest(crypto, ls, payload, k)) == 0
  {
    hide Sound, OuterIp, Seen, Nest, Has, Checksum, Unless, Transport.Checked, Icmp.DefaultType;
    SegmentIs(crypto, ls, payload, k);
    var l, inside := ls[k], Nest(crypto, ls, payload, k + 1);
    var f := Unless(Has(l.modified, Icmp.ICMP_MOD_TYPE), l.bytes, 0, [Icmp.DefaultType('i')]);
    CheckedVerifies(f, 2, [], inside);
    assert [] + Transport.Checked(f, 2, [], inside) + inside == Transport.Checked(f, 2, [], inside) + inside;
  }

  /** ICMPv6 verifies against the pseudo header of RFC 8200 over the final IPv6 header. */
  lemma Icmp6Verifies(crypto: Esp.Crypto, ls: seq<Layer>, payload: seq<byte>, k: nat)
    requires Sound(crypto, ls) && k < |ls| && ls[k].kind == 'c' && ls[OuterIp(ls, k)].kind == '6'
    requires !Has(ls[k].modified, Icmp.ICMP_MOD_CHECK)
    ensures var segment := Nest(crypto, ls, payload, k);
      Checksum(Ipv6Pseudo(FinalIp(crypto, ls, payload, k), |segment|, 58) + segment) == 0
  {
    hide Sound, OuterIp, Seen, Nest, Has, FinalIp, Checksum, Unless, Transport.Checked, Icmp.DefaultType, Be32;
    SegmentIs(crypto, ls, payload, k);
    ChecksummedIsFinal(crypto, ls, payload, k);
    var l, ip := ls[k], Seen(crypto, ls, OuterIp(ls, k), k).bytes;
    var final, inside := FinalIp(crypto, ls, payload, k), Nest(crypto, ls, payload, k + 1);
    var n := |l.bytes| + |inside|;
    var f := Unless(Has(l.modified, Icmp.ICMP_MOD_TYPE), l.bytes, 0, [Icmp.DefaultType('6')]);
    var pseudo := Icmp.Pseudo('6', ip, n);
    CheckedVerifies(f, 2, pseudo, inside);
    assert final[8..24] + final[24..40] == ip[8..40];
    assert pseudo == Ipv6Pseudo(final, n, 58);
    assert pseudo + Transport.Checked(f, 2, pseudo, inside) + inside
      == pseudo + (Transport.Checked(f, 2, pseudo, inside) + inside);
  }

  /** The sum does not notice in which half of the 32-bit length the 16-bit length stands. */
  lemma HalvesSumAlike(a: seq<byte>, length: nat, d: seq<byte>)
    requires |a| % 2 == 0 && length < 0x1_0000
    ensures LeSum(a + Be16(length) + [0, 0] + d) == LeSum(a + Be32(length) + d)
    ensures Checksum(a + Be16(length) + [0, 0] + d) == Checksum(a + Be32(length) + d)
  {
    var b := Be16(length);
    assert Be32(length) == [0, 0] + b;
    assert a + b + [0, 0] + d == a + (b + ([0, 0] + d));
    assert a + Be32(length) + d == a + ([0, 0] + (b + d));
    LeSumAppends(a, b + ([0, 0] + d));
    LeSumAppends(a, [0, 0] + (b + d));
    LeSumAppends(b, [0, 0] + d);
    LeSumAppends(b, d);
    LeSumAppends([0, 0], d);
    LeSumAppends([0, 0], b + d);
  }

  /** UDP over IPv6 verifies in the finished packet, against the pseudo header of RFC 8200 with the
  length that UDP itself carries, although the source puts it into the other half of its field. */
  lemma Udp6Verifies(crypto: Esp.Crypto, ls: seq<Layer>, payload: seq<byte>, k: nat)
    requires Sound(crypto, ls) && k < |ls| && ls[k].kind == 'u' && ls[OuterIp(ls, k)].kind == '6'
    requires !Has(ls[k].modified, Udp.UDP_MOD_CHECK)
    ensures var segment := Nest(crypto, ls, payload, k);
      && |segment| >= 8
      && Checksum(Ipv6Pseudo(FinalIp(crypto, ls, payload, k), Word(segment[5], segment[4]), 17) + segment) == 0
  {
    hide Sound, OuterIp, Seen, Nest, Has, FinalIp, Checksum, Unless, Transport.Checked, Be16, Be32;
    SegmentIs(crypto, ls, payload, k);
    ChecksummedIsFinal(crypto, ls, payload, k);
    var l, ip := ls[k], Seen(crypto, ls, OuterIp(ls, k), k).bytes;
    var final, inside := FinalIp(crypto, ls, payload, k), Nest(crypto, ls, payload, k + 1);
    var n := |l.bytes| + |inside|;
    var f := Unless(Has(l.modified, Udp.UDP_MOD_LEN), l.bytes, 4, Be16(n));
    var pseudo := Udp.Pseudo('6', ip, f, n);
    CheckedVerifies(f, 6, pseudo, inside);
    var h := Transport.Checked(f, 6, pseudo, inside);
    assert pseudo + h + inside == pseudo + (h + inside);
    Fields.CheckedAt(f, 6, pseudo, inside, 4);
    Fields.CheckedAt(f, 6, pseudo, inside, 5);
    Udp6Sum(ip, final, f[4..6], h + inside);
    assert f[4..6] == [f[4], f[5]];
  }

  lemma LengthFieldIs(v: seq<byte>)
    requires |v| == 2
    ensures 0 <= Word(v[1], v[0]) < 0x1_0000 && Be16(Word(v[1], v[0])) == v
  {
  }

  /** The pseudo header the source builds, with the two bytes v of UDP's own length, sums like that
  of RFC 8200. */
  lemma Udp6Sum(ip: seq<byte>, final: seq<byte>, v: seq<byte>, segment: seq<byte>)
    requires |ip| >= 40 && |final| >= 40 && final[8..40] == ip[8..40] && |v| == 2
    ensures 0 <= Word(v[1], v[0])
    ensures var s, t := ip[8..40] + v + [0, 0] + [0, 0, 0, 17] + segment, Ipv6Pseudo(final, Word(v[1], v[0]), 17) + segment;
      LeSum(s) == LeSum(t) && Checksum(s) == Checksum(t)
  {
    hide Checksum, LeSum, Be16, Be32;
    LengthFieldIs(v);
    var n: nat := Word(v[1], v[0]);
    var tail: seq<byte> := [0, 0, 0, 17] + segment;
    SliceSplits(final, 8, 24, 40);
    HalvesSumAlike(ip[8..40], n, tail);
    assert ip[8..40] + v + [0, 0] + [0, 0, 0, 17] + segment == ip[8..40] + Be16(n) + [0, 0] + tail;
    assert Ipv6Pseudo(final, n, 17) + segment == ip[8..40] + Be32(n) + tail;
  }

  // ----- the protocol field

  /** The transport header finalized first among those IPv4 header j is the nearest around: the
  innermost one, at or inside position i; -1 if there is none. */
  function Claimer(ls: seq<Layer>, j: nat, i: nat): (r: int)
    requires j < i <= |ls|
    ensures r == -1 || i <= r < |ls|
    ensures r >= 0 ==> IsTransport(ls[r].kind) && OuterIp(ls, r) == j
    ensures forall k :: i <= k < |ls| && k > r && IsTransport(ls[k].kind) ==> OuterIp(ls, k) != j
    decreases |ls| - i
  {
    if i == |ls| then -1
    else
      var r := Claimer(ls, j, i + 1);
      if r >= 0 then r else if IsTransport(ls[i].kind) && OuterIp(ls, i) == j then i else -1
  }

  lemma ClaimedByte(modified: bv32, ip: seq<byte>, proto: byte)
    requires |ip| >= 20
    ensures var r, m := Transport.ClaimedBytes('i', modified, ip, proto), Transport.ClaimedFlags('i', modified);
      && Has(m, Ipv4.IP_MOD_PROTOCOL)
      && (Has(modified, Ipv4.IP_MOD_PROTOCOL) ==> r == ip && m == modified)
      && (!Has(modified, Ipv4.IP_MOD_PROTOCOL) ==> r[9] == proto)
  {
    hide Has;
    ClaimSets(modified);
  }

  /** The protocol the receiver reads from IPv4 header j: the given one; else that of the
  innermost transport header it is the nearest IP header around; else that of the next header. */
  lemma {:induction false} SeenProtocol(crypto: Esp.Crypto, ls: seq<Layer>, j: nat, i: nat)
    requires Sound(crypto, ls) && j < i <= |ls| && ls[j].kind == 'i'
    ensures |ls[j].bytes| >= 20
    ensures var l, r := Seen(crypto, ls, j, i), Claimer(ls, j, i);
      if Has(ls[j].modified, Ipv4.IP_MOD_PROTOCOL) then l == ls[j]
      else if r >= 0 then Has(l.modified, Ipv4.IP_MOD_PROTOCOL) && l.bytes[9] == TransportProtocol(ls[r].kind)
      else l == ls[j]
    decreases |ls| - i
  {
    hide Sound, OuterIp, IsTransport, TransportProtocol, Has, Transport.ClaimedBytes, Transport.ClaimedFlags;
    HeaderRoom(crypto, ls, j);
    if i < |ls| {
      SeenProtocol(crypto, ls, j, i + 1);
      var l := Seen(crypto, ls, j, i + 1);
      ClaimedByte(l.modified, l.bytes, TransportProtocol(ls[i].kind));
    }
  }

  lemma HeaderRoom(crypto: Esp.Crypto, ls: seq<Layer>, j: nat)
    requires Sound(crypto, ls) && j < |ls|
    ensures |ls[j].bytes| >= Smallest(ls[j].kind)
  {
    assert LayerOk(crypto, ls[j]);
  }

  lemma FinalProtocol(crypto: Esp.Crypto, ls: seq<Layer>, payload: seq<byte>, j: nat)
    requires Sound(crypto, ls) && j < |ls| && ls[j].kind == 'i'
    ensures var packet, r := Nest(crypto, ls, payload, j), Claimer(ls, j, j + 1);
      && |packet| >= 20
      && packet[9] == if Has(ls[j].modified, Ipv4.IP_MOD_PROTOCOL) then ls[j].bytes[9]
                      else if r >= 0 then TransportProtocol(ls[r].kind)
                      else ProtocolOf(NextKind(ls, j))
  {
    hide Sound, OuterIp, Seen, Has, Ipv4.Finalized, TransportProtocol, Claimer, ProtocolOf, InnerIp;
    var l, inside := Seen(crypto, ls, j, j + 1), Nest(crypto, ls, payload, j + 1);
    SeenProtocol(crypto, ls, j, j + 1);
    Ipv4KeepsAddresses(l.bytes, l.modified, NextKind(ls, j), |inside|, l.rand);
    Ipv4DefaultProtocol(l.bytes, l.modified, NextKind(ls, j), |inside|, l.rand);
    assert Nest(crypto, ls, payload, j)
      == Ipv4.Finalized(l.bytes, l.modified, NextKind(ls, j), |inside|, l.rand) + inside;
  }

  lemma Ipv4DefaultProtocol(h: seq<byte>, modified: bv32, next: char, inside: nat, rand: nat)
    requires |h| >= 20
    ensures !Has(modified, Ipv4.IP_MOD_PROTOCOL) ==>
      Ipv4.Finalized(h, modified, next, inside, rand)[9] == ProtocolOf(next)
  {
    hide Has, Ipv4.Filled, Ipv4.WithChecksum, ProtocolOf;
  }

  // ----- the IPv4 header checksum

  lemma ChecksumFieldVerifies(h: seq<byte>)
    requires |h| >= 20
    ensures Checksum(Ipv4.WithChecksum(h)) == 0
  {
    hide Checksum;
    InsertedChecksumVerifies(Poke(h, 10, [0, 0]), 10);
  }

  lemma PokeIsUpdate(h: seq<byte>, at: nat, b: byte)
    requires at < |h|
    ensures Poke(h, at, [b]) == h[at := b]
  {
  }

  /** finalize computes the checksum before it fills in a missing protocol, so an automatic header
  checksum verifies exactly when the protocol was known by then, or when the protocol filled in is
  the byte that already stood there (zero, that is: a hop-by-hop header follows). */
  lemma Ipv4ChecksumVerifiesIff(h: seq<byte>, modified: bv32, next: char, inside: nat, rand: nat)
    requires |h| >= 20 && !Has(modified, Ipv4.IP_MOD_CHECK)
    ensures Checksum(Ipv4.Finalized(h, modified, next, inside, rand)) == 0
      <==> Has(modified, Ipv4.IP_MOD_PROTOCOL) || ProtocolOf(next) == h[9]
  {
    hide Has, Ipv4.Filled, Ipv4.WithChecksum, ProtocolOf, Checksum, Poke;
    var f := Ipv4.Filled(h, modified, inside, rand);
    var c := Ipv4.WithChecksum(f);
    ChecksumFieldVerifies(f);
    FilledKeeps(h, modified, inside, rand, 9, 10);
    ChecksumKeeps(f, 9, 10);
    assert c[9] == c[9..10][0] == f[9..10][0] == h[9..10][0] == h[9];
    PokeIsUpdate(c, 9, ProtocolOf(next));
    ChangedByteFails(c, 9, ProtocolOf(next));
  }

  /** An empty header with no protocol given and no header inside: 59 is filled in over the zero
  that was summed. */
  lemma LateProtocolBreaksChecksum(rand: nat)
    ensures Checksum(Ipv4.Finalized(Zeros(20), 0, '\0', 0, rand)) != 0
  {
    hide Ipv4.Finalized, Checksum;
    Ipv4ChecksumVerifiesIff(Zeros(20), 0, '\0', 0, rand);
    assert ProtocolOf('\0') == 59;
  }

  // ----- WESP

  lemma WespParts(crypto: Esp.Crypto, ls: seq<Layer>, payload: seq<byte>, i: nat)
    requires Sound(crypto, ls) && i + 1 < |ls| && ls[i].kind == 'w' && ls[i + 1].kind == 'e'
    ensures var w, e, inside := ls[i], ls[i + 1], Nest(crypto, ls, payload, i + 2);
      && |w.bytes| >= 4 && Esp.Fits(e.bytes, e.modified, e.priv) && (crypto.auth ==> e.priv.icvlen > 0)
      && Nest(crypto, ls, payload, i)
        == Wesp.Finalized(w.bytes, w.modified, NextKind(ls, i), NextKind(ls, i + 1), e.priv)
         + Esp.Encapsulated(crypto, e.bytes, e.modified, e.priv, NextKind(ls, i + 1), inside)
  {
    hide Sound, Seen, Nest, Esp.Fits, Esp.Encapsulated, Wesp.Finalized, InnerIp, NextKind;
    LayerIsOk(crypto, ls, i);
    LayerIsOk(crypto, ls, i + 1);
    SeenUnclaimed(crypto, ls, i, i + 1);
    NestStep(crypto, ls, payload, i);
    NestStep(crypto, ls, payload, i + 1);
  }

  /** An unencrypted WESP header with automatic lengths tells a middlebox where to look: hdrlen is
  the offset of the payload behind the IV, and trlrlen is the length of the ICV at the end. */
  lemma WespPointsAtPayload(crypto: Esp.Crypto, ls: seq<Layer>, payload: seq<byte>, i: nat)
    requires Sound(crypto, ls) && i + 1 < |ls| && ls[i].kind == 'w' && ls[i + 1].kind == 'e' && !crypto.crypt
    requires |ls[i].bytes| >= 4 && !Wesp.Encrypted(ls[i].bytes)
    requires !Has(ls[i].modified, Wesp.WESP_MOD_HDRLEN) && !Has(ls[i].modified, Wesp.WESP_MOD_TRLRLEN)
    requires var esp := ls[i + 1].priv; esp.EspPrivate? && |ls[i].bytes| + 8 + esp.ivlen < 0x100 && esp.icvlen < 0x100
    ensures var packet, inside := Nest(crypto, ls, payload, i), Nest(crypto, ls, payload, i + 2);
      && |packet| >= 4
      && var hdrlen, trlrlen := packet[1] as nat, packet[2] as nat;
         && hdrlen + |inside| <= |packet| && packet[hdrlen..hdrlen + |inside|] == inside
         && |packet| >= trlrlen + 2
         && var padlen := packet[|packet| - trlrlen - 2] as nat;
            |packet| == hdrlen + |inside| + padlen + 2 + trlrlen
  {
    hide Sound, Nest, Esp.Fits, Esp.Encapsulated, Wesp.Finalized, Wesp.Encrypted, Has, NextKind;
    WespParts(crypto, ls, payload, i);
    var w, e, inside := ls[i], ls[i + 1], Nest(crypto, ls, payload, i + 2);
    var h := Wesp.Finalized(w.bytes, w.modified, NextKind(ls, i), NextKind(ls, i + 1), e.priv);
    var r := Esp.Encapsulated(crypto, e.bytes, e.modified, e.priv, NextKind(ls, i + 1), inside);
    Wesp.AutomaticLengths(w.bytes, w.modified, NextKind(ls, i), NextKind(ls, i + 1), e.priv);
    EspReceiver.PlainLayout(crypto, e.bytes, e.modified, e.priv, NextKind(ls, i + 1), inside);
    var at := 8 + e.priv.ivlen;
    assert (h + r)[|h| + at..|h| + at + |inside|] == r[at..at + |inside|];
  }
}
