/** The fields of the finished packet, as numbers: what a receiver reads from each header on its
way, for every list of headers, whatever lies around it. */
module ReceivedFields {
  import opened Bytes
  import opened Encapsulation
  import opened Fields
  import opened Headers
  import opened Receiver
  import opened SendipModule
  import Chain
  import Esp
  import EspReceiver
  import Gre
  import Hop
  import Icmp
  import Ipv4
  import Ipv6
  import Sctp
  import Tcp
  import Transport
  import Udp
  import Wesp

  // ----- what the numbers stand for

  /** b is the assigned protocol number of the header behind header i: that of its module, and 59,
  no next header, if nothing follows or nothing that has one. */
  predicate NamesNext(ls: seq<Layer>, i: nat, b: nat)
  {
    if i + 1 >= |ls| then b == 59
    else
      var next := ls[i + 1].kind;
      && (b == 0 <==> next == 'H') && (b == 60 <==> next == 'd')
      && (b == 4 <==> next == 'i') && (b == 41 <==> next == '6')
      && (b == 6 <==> next == 't') && (b == 17 <==> next == 'u') && (b == 58 <==> next == 'c')
      && (b == 43 <==> next == 'o') && (b == 44 <==> next == 'F') && (b == 51 <==> next == 'a')
      && (b == 47 <==> next == 'g') && (b == 50 <==> next == 'e') && (b == 132 <==> next == 's')
      && (b == 141 <==> next == 'w')
      && (b == 59 <==> next !in "Hdi6tucoFagesw")
  }

  lemma NextIsNamed(ls: seq<Layer>, i: nat)
    ensures NamesNext(ls, i, ProtocolOf(NextKind(ls, i)))
  {
  }

  // ----- IPv4

  /** The claim changes the protocol of an IPv4 header and nothing else. */
  predicate ClaimedFrom(l: Layer, was: Layer)
  {
    && |l.bytes| == |was.bytes| && l.kind == was.kind && l.rand == was.rand
    && (forall k :: 0 <= k < |l.bytes| && k != 9 ==> l.bytes[k] == was.bytes[k])
    && (l.modified == was.modified || l.modified == was.modified | Ipv4.IP_MOD_PROTOCOL)
  }

  lemma ClaimStep(l: Layer, was: Layer, proto: byte)
    requires ClaimedFrom(l, was) && (l.kind == 'i' ==> |l.bytes| >= 20)
    ensures ClaimedFrom(l.(bytes := Transport.ClaimedBytes(l.kind, l.modified, l.bytes, proto),
                           modified := Transport.ClaimedFlags(l.kind, l.modified)), was)
  {
    TwiceIsOnce(was.modified);
  }

  lemma TwiceIsOnce(modified: bv32)
    ensures (modified | Ipv4.IP_MOD_PROTOCOL) | Ipv4.IP_MOD_PROTOCOL == modified | Ipv4.IP_MOD_PROTOCOL
  {
  }

  lemma {:induction false} SeenIsClaimed(crypto: Esp.Crypto, ls: seq<Layer>, j: nat, i: nat)
    requires Sound(crypto, ls) && j < i <= |ls|
    ensures ClaimedFrom(Seen(crypto, ls, j, i), ls[j])
    decreases |ls| - i
  {
    hide Sound, OuterIp, ClaimedFrom, TransportProtocol, Transport.ClaimedBytes, Transport.ClaimedFlags;
    if i == |ls| {
      ClaimedFromItself(ls[j]);
    } else {
      SeenIsClaimed(crypto, ls, j, i + 1);
      HeaderRoom(crypto, ls, j);
      ClaimStep(Seen(crypto, ls, j, i + 1), ls[j], TransportProtocol(ls[i].kind));
    }
  }

  lemma ClaimedFromItself(l: Layer)
    ensures ClaimedFrom(l, l)
  {
  }

  lemma OtherFlags(modified: bv32)
    ensures var m := modified | Ipv4.IP_MOD_PROTOCOL;
      && Has(m, Ipv4.IP_MOD_VERSION) == Has(modified, Ipv4.IP_MOD_VERSION)
      && Has(m, Ipv4.IP_MOD_HEADERLEN) == Has(modified, Ipv4.IP_MOD_HEADERLEN)
      && Has(m, Ipv4.IP_MOD_TOTLEN) == Has(modified, Ipv4.IP_MOD_TOTLEN)
      && Has(m, Ipv4.IP_MOD_ID) == Has(modified, Ipv4.IP_MOD_ID)
      && Has(m, Ipv4.IP_MOD_TTL) == Has(modified, Ipv4.IP_MOD_TTL)
      && Has(m, Ipv4.IP_MOD_CHECK) == Has(modified, Ipv4.IP_MOD_CHECK)
  {
  }

  /** The packet from header j inwards: the finished header and what is inside. */
  lemma PlainIs(crypto: Esp.Crypto, ls: seq<Layer>, payload: seq<byte>, j: nat) returns (l: Layer)
    requires Sound(crypto, ls) && j < |ls| && ls[j].kind != 'e' && !IsTransport(ls[j].kind)
    ensures l == Seen(crypto, ls, j, j + 1) && |l.bytes| == |ls[j].bytes| >= Smallest(ls[j].kind) == Smallest(l.kind)
    ensures ClaimedFrom(l, ls[j]) && (ls[j].kind != 'i' ==> l == ls[j])
    ensures var inside := Nest(crypto, ls, payload, j + 1);
      Nest(crypto, ls, payload, j)
        == FinishedPlain(l, NextKind(ls, j), NextKind(ls, j + 1), InnerIp(crypto, ls, j), WrappedPrivate(ls, j), inside) + inside
  {
    hide Sound, OuterIp, ClaimedFrom, FinishedPlain, NextKind, InnerIp, WrappedPrivate, Seen;
    HeaderRoom(crypto, ls, j);
    SeenIsClaimed(crypto, ls, j, j + 1);
    if ls[j].kind != 'i' {
      SeenUnclaimed(crypto, ls, j, j + 1);
    }
    NestStep(crypto, ls, payload, j);
    l := Seen(crypto, ls, j, j + 1);
  }

  /** RFC 791, section 3.1: every field but checksum and protocol of the IPv4 header h in front of
  the finished packet p. */
  ghost predicate Ipv4Fields(h: seq<byte>, m: bv32, rand: nat, total: nat, p: seq<byte>)
    requires |p| >= |h| >= 20
  {
    && p[0] / 16 == (if Has(m, Ipv4.IP_MOD_VERSION) then h[0] / 16 else 4)
    && p[0] % 16 == (if Has(m, Ipv4.IP_MOD_HEADERLEN) then h[0] % 16 else (|h| + 3) / 4 % 16)
    && p[1] == h[1]
    && Word(p[3], p[2]) == (if Has(m, Ipv4.IP_MOD_TOTLEN) then Word(h[3], h[2]) else total % 0x1_0000)
    && Word(p[4], p[5]) == (if Has(m, Ipv4.IP_MOD_ID) then Word(h[4], h[5]) else rand % 0x1_0000)
    && p[6] == h[6] && p[7] == h[7]
    && p[8] == (if Has(m, Ipv4.IP_MOD_TTL) then h[8] else 255)
    && (Has(m, Ipv4.IP_MOD_CHECK) ==> p[10] == h[10] && p[11] == h[11])
    && (forall k :: 12 <= k < |h| ==> p[k] == h[k])
  }

  lemma FieldsUnclaimed(l: Layer, was: Layer, total: nat, p: seq<byte>)
    requires ClaimedFrom(l, was) && |p| >= |l.bytes| >= 20 && Ipv4Fields(l.bytes, l.modified, l.rand, total, p)
    ensures Ipv4Fields(was.bytes, was.modified, was.rand, total, p)
  {
    SameOtherwise(l, was);
    hide Has, ClaimedFrom;
  }

  lemma SameOtherwise(l: Layer, was: Layer)
    requires ClaimedFrom(l, was)
    ensures |l.bytes| == |was.bytes| && l.rand == was.rand
    ensures forall k :: 0 <= k < |l.bytes| && k != 9 ==> l.bytes[k] == was.bytes[k]
    ensures Has(l.modified, Ipv4.IP_MOD_VERSION) == Has(was.modified, Ipv4.IP_MOD_VERSION)
    ensures Has(l.modified, Ipv4.IP_MOD_HEADERLEN) == Has(was.modified, Ipv4.IP_MOD_HEADERLEN)
    ensures Has(l.modified, Ipv4.IP_MOD_TOTLEN) == Has(was.modified, Ipv4.IP_MOD_TOTLEN)
    ensures Has(l.modified, Ipv4.IP_MOD_ID) == Has(was.modified, Ipv4.IP_MOD_ID)
    ensures Has(l.modified, Ipv4.IP_MOD_TTL) == Has(was.modified, Ipv4.IP_MOD_TTL)
    ensures Has(l.modified, Ipv4.IP_MOD_CHECK) == Has(was.modified, Ipv4.IP_MOD_CHECK)
  {
    OtherFlags(was.modified);
  }

  lemma FieldsInFront(l: Layer, next: char, inside: seq<byte>)
    requires |l.bytes| >= 20
    ensures Ipv4Fields(l.bytes, l.modified, l.rand, |l.bytes| + |inside|,
      Ipv4.Finalized(l.bytes, l.modified, next, |inside|, l.rand) + inside)
  {
    hide Has, Ipv4.Finalized;
    Ipv4Reads(l.bytes, l.modified, next, |inside|, l.rand);
    var f := Ipv4.Finalized(l.bytes, l.modified, next, |inside|, l.rand);
    forall k | 12 <= k < |f| ensures (f + inside)[k] == l.bytes[k] {
      assert f[12..][k - 12] == l.bytes[12..][k - 12];
    }
  }

  /** What is read from a finished IPv4 header, its length and the rest of the packet among it. */
  lemma Ipv4InPacket(crypto: Esp.Crypto, ls: seq<Layer>, payload: seq<byte>, j: nat)
    requires Sound(crypto, ls) && j < |ls| && ls[j].kind == 'i'
    ensures var p, l := Nest(crypto, ls, payload, j), ls[j];
      |p| >= |l.bytes| >= 20 && Ipv4Fields(l.bytes, l.modified, l.rand, |p|, p)
  {
    hide Sound, Nest, NextKind, InnerIp, WrappedPrivate, Ipv4.Finalized, Seen, ClaimedFrom, Ipv4Fields;
    var l := PlainIs(crypto, ls, payload, j);
    SameKind(l, ls[j]);
    var inside := Nest(crypto, ls, payload, j + 1);
    FieldsInFront(l, NextKind(ls, j), inside);
    FieldsUnclaimed(l, ls[j], |l.bytes| + |inside|, Nest(crypto, ls, payload, j));
  }

  lemma SameKind(l: Layer, was: Layer)
    requires ClaimedFrom(l, was)
    ensures l.kind == was.kind && l.rand == was.rand
  {
  }

  /** The protocol: the given one; else that of the innermost transport header claiming it, TCP 6,
  UDP 17 or ICMP 1, over any other header in between; else that of the header behind. */
  lemma Ipv4NamesProtocol(crypto: Esp.Crypto, ls: seq<Layer>, payload: seq<byte>, j: nat)
    requires Sound(crypto, ls) && j < |ls| && ls[j].kind == 'i'
    ensures var p, c := Nest(crypto, ls, payload, j), Claimer(ls, j, j + 1);
      && |p| >= 20 && |ls[j].bytes| >= 20
      && if Has(ls[j].modified, Ipv4.IP_MOD_PROTOCOL) then p[9] == ls[j].bytes[9]
         else if c >= 0 then
           && (ls[c].kind == 't' ==> p[9] == 6) && (ls[c].kind == 'u' ==> p[9] == 17) && (ls[c].kind == 'c' ==> p[9] == 1)
           && ls[c].kind in "tuc"
         else NamesNext(ls, j, p[9])
  {
    hide Sound, Has, Nest, NextKind, Claimer, NamesNext, ProtocolOf;
    FinalProtocol(crypto, ls, payload, j);
    HeaderRoom(crypto, ls, j);
    NextIsNamed(ls, j);
  }

  // ----- IPv6

  /** RFC 8200, section 3: every field of a finished IPv6 header. */
  lemma Ipv6InPacket(crypto: Esp.Crypto, ls: seq<Layer>, payload: seq<byte>, j: nat)
    requires Sound(crypto, ls) && j < |ls| && ls[j].kind == '6'
    ensures var p, h, m := Nest(crypto, ls, payload, j), ls[j].bytes, ls[j].modified;
      && |p| >= |h| >= 40
      && p[0] / 16 == (if Has(m, Ipv6.IPV6_MOD_VERSION) then h[0] / 16 else 6) && p[0] % 16 == h[0] % 16
      && p[1] == h[1] && p[2] == h[2] && p[3] == h[3]
      && Word(p[5], p[4]) == (if Has(m, Ipv6.IPV6_MOD_PLEN) then Word(h[5], h[4]) else (|p| - |h|) % 0x1_0000)
      && (if Has(m, Ipv6.IPV6_MOD_NXT) then p[6] == h[6] else NamesNext(ls, j, p[6]))
      && p[7] == (if Has(m, Ipv6.IPV6_MOD_HLIM) then h[7] else 32)
      && p[8..|h|] == h[8..]
  {
    hide Sound, Has, Nest, NextKind, InnerIp, WrappedPrivate, Ipv6.Finalized, Seen, NamesNext, ProtocolOf;
    var l := PlainIs(crypto, ls, payload, j);
    var inside := Nest(crypto, ls, payload, j + 1);
    Ipv6Reads(l.bytes, l.modified, NextKind(ls, j), |inside|);
    NextIsNamed(ls, j);
    var f := Ipv6.Finalized(l.bytes, l.modified, NextKind(ls, j), |inside|);
    forall k | 8 <= k < |f| ensures Nest(crypto, ls, payload, j)[k] == ls[j].bytes[k] {
      assert f[8..][k - 8] == l.bytes[8..][k - 8];
    }
  }

  // ----- transport headers

  lemma TransportIs(crypto: Esp.Crypto, ls: seq<Layer>, payload: seq<byte>, k: nat) returns (kind: char, ip: seq<byte>)
    requires Sound(crypto, ls) && k < |ls| && IsTransport(ls[k].kind)
    ensures 0 <= OuterIp(ls, k) < k && kind == ls[OuterIp(ls, k)].kind && |ip| >= (if kind == 'i' then 20 else 40)
    ensures |ls[k].bytes| >= Smallest(ls[k].kind)
    ensures var inside := Nest(crypto, ls, payload, k + 1);
      Nest(crypto, ls, payload, k) == FinishedTransport(ls[k], kind, ip, inside) + inside
  {
    hide Sound, Seen, Nest, OuterIp, FinishedTransport;
    SegmentIs(crypto, ls, payload, k);
    var l := Seen(crypto, ls, OuterIp(ls, k), k);
    kind, ip := l.kind, l.bytes;
  }

  /** RFC 9293, section 3.1: every field of a finished TCP header but the checksum. */
  lemma TcpInPacket(crypto: Esp.Crypto, ls: seq<Layer>, payload: seq<byte>, k: nat)
    requires Sound(crypto, ls) && k < |ls| && ls[k].kind == 't'
    ensures var p, n := Nest(crypto, ls, payload, k), |ls[k].bytes|;
      |p| >= n >= 20 && TcpFields(ls[k].bytes, ls[k].modified, ls[k].rand, p[..n])
  {
    hide Sound, Has, Nest, Tcp.Finalized, OuterIp, TcpFields;
    var kind, ip := TransportIs(crypto, ls, payload, k);
    var inside := Nest(crypto, ls, payload, k + 1);
    TcpReads(ls[k].bytes, ls[k].modified, kind, ip, inside, ls[k].rand);
    PartsOfSum(Tcp.Finalized(ls[k].bytes, ls[k].modified, kind, ip, inside, ls[k].rand), inside);
  }

  /** RFC 768: the ports are those given, and the length counts header and data. */
  lemma UdpInPacket(crypto: Esp.Crypto, ls: seq<Layer>, payload: seq<byte>, k: nat)
    requires Sound(crypto, ls) && k < |ls| && ls[k].kind == 'u'
    ensures var segment, h := Nest(crypto, ls, payload, k), ls[k].bytes;
      && |segment| >= |h| >= 8
      && segment[..4] == h[..4] && segment[8..|h|] == h[8..]
      && Word(segment[5], segment[4]) == (if Has(ls[k].modified, Udp.UDP_MOD_LEN) then Word(h[5], h[4]) else |segment| % 0x1_0000)
      && (Has(ls[k].modified, Udp.UDP_MOD_CHECK) ==> segment[6] == h[6] && segment[7] == h[7])
  {
    hide Sound, Has, Nest, Udp.Finalized, OuterIp;
    var kind, ip := TransportIs(crypto, ls, payload, k);
    var h, inside := ls[k].bytes, Nest(crypto, ls, payload, k + 1);
    UdpReads(h, ls[k].modified, kind, ip, inside);
    var f := Udp.Finalized(h, ls[k].modified, kind, ip, inside);
    assert f[6..8] == h[6..8] ==> f[6] == f[6..8][0] == h[6..8][0] == h[6] && f[7] == f[6..8][1] == h[6..8][1] == h[7];
    assert forall x :: 0 <= x < |f| ==> (f + inside)[x] == f[x];
    assert (f + inside)[..4] == f[..4] && (f + inside)[8..|h|] == f[8..];
  }

  /** RFC 792 and RFC 4443, section 4.1: an echo request by default, 8 over IPv4 and 128 over IPv6. */
  lemma IcmpInPacket(crypto: Esp.Crypto, ls: seq<Layer>, payload: seq<byte>, k: nat)
    requires Sound(crypto, ls) && k < |ls| && ls[k].kind == 'c'
    ensures 0 <= OuterIp(ls, k) < k
    ensures var segment, h := Nest(crypto, ls, payload, k), ls[k].bytes;
      && |segment| >= |h| >= 4
      && segment[0] == (if Has(ls[k].modified, Icmp.ICMP_MOD_TYPE) then h[0] else if ls[OuterIp(ls, k)].kind == '6' then 128 else 8)
      && segment[1] == h[1] && segment[4..|h|] == h[4..]
      && (Has(ls[k].modified, Icmp.ICMP_MOD_CHECK) ==> segment[2] == h[2] && segment[3] == h[3])
  {
    hide Sound, Has, Nest, Icmp.Finalized, OuterIp;
    var kind, ip := TransportIs(crypto, ls, payload, k);
    var h, inside := ls[k].bytes, Nest(crypto, ls, payload, k + 1);
    IcmpReads(h, ls[k].modified, kind, ip, inside);
    var f := Icmp.Finalized(h, ls[k].modified, kind, ip, inside);
    assert f[2..4] == h[2..4] ==> f[2] == f[2..4][0] == h[2..4][0] == h[2] && f[3] == f[2..4][1] == h[2..4][1] == h[3];
    assert (f + inside)[4..|h|] == f[4..];
  }

  // ----- the other headers

  /** The extension headers name what follows and leave everything else as it was given. */
  lemma ChainInPacket(crypto: Esp.Crypto, ls: seq<Layer>, payload: seq<byte>, i: nat)
    requires Sound(crypto, ls) && i < |ls| && ls[i].kind in "aFo"
    ensures var p, h := Nest(crypto, ls, payload, i), ls[i].bytes;
      && |p| >= |h| >= 4 && p[1..|h|] == h[1..]
      && if Has(ls[i].modified, if ls[i].kind == 'a' then 8 else 1) then p[0] == h[0] else NamesNext(ls, i, p[0])
  {
    hide Sound, Has, Nest, NextKind, InnerIp, WrappedPrivate, Seen, NamesNext, ProtocolOf;
    var l := PlainIs(crypto, ls, payload, i);
    NextIsNamed(ls, i);
  }

  /** An options header names what follows, too. */
  lemma HopInPacket(crypto: Esp.Crypto, ls: seq<Layer>, payload: seq<byte>, i: nat)
    requires Sound(crypto, ls) && i < |ls| && ls[i].kind in "Hd"
    ensures var p, h := Nest(crypto, ls, payload, i), ls[i].bytes;
      && |p| >= |h| >= 8
      && (Hop.Used(h, ls[i].modified) > 0 ==>
          if Has(ls[i].modified, Hop.HOP_MOD_NEXTHDR) then p[0] == h[0] else NamesNext(ls, i, p[0]))
  {
    hide Sound, Has, Nest, NextKind, InnerIp, WrappedPrivate, Seen, NamesNext, ProtocolOf, Hop.Used;
    var l := PlainIs(crypto, ls, payload, i);
    NextIsNamed(ls, i);
    FirstOfOptions(l.bytes, l.modified, NextKind(ls, i));
  }

  lemma FirstOfOptions(h: seq<byte>, modified: bv32, next: char)
    requires |h| >= 8
    ensures Hop.Used(h, modified) > 0 ==> Hop.Finalized(h, modified, next)[0] == if Has(modified, Hop.HOP_MOD_NEXTHDR) then h[0] else ProtocolOf(next)
  {
    hide Has, ProtocolOf, Hop.Used;
  }

  /** RFC 2784, section 2.1: the protocol type is the EtherType of the first IP header inside, next
  to it or further in, if there is one. */
  lemma GreInPacket(crypto: Esp.Crypto, ls: seq<Layer>, payload: seq<byte>, i: nat, k: nat)
    requires Sound(crypto, ls) && i < k <= |ls| && ls[i].kind == 'g'
    requires forall x :: i < x < k ==> ls[x].kind !in "i6"
    requires k < |ls| ==> ls[k].kind in "i6"
    ensures var p, h := Nest(crypto, ls, payload, i), ls[i].bytes;
      && |p| >= |h| >= 8 && p[0] == h[0] && p[1] == h[1] && p[6..|h|] == h[6..]
      && Word(p[3], p[2]) == (if Has(ls[i].modified, Gre.GRE_MOD_PROTOCOL) || k == |ls| then Word(h[3], h[2])
                              else if ls[k].kind == 'i' then 0x0800 else 0x86DD)
  {
    hide Sound, Has, Nest, NextKind, WrappedPrivate, Seen, InnerIp, Gre.Finalized;
    var l := PlainIs(crypto, ls, payload, i);
    var inside := Nest(crypto, ls, payload, i + 1);
    FirstIpInside(crypto, ls, i, k);
    GreReads(l.bytes, l.modified, InnerIp(crypto, ls, i), inside);
    var f := Gre.Finalized(l.bytes, l.modified, InnerIp(crypto, ls, i), inside);
    assert (f + inside)[6..|f|] == f[6..];
  }

  lemma FirstIpInside(crypto: Esp.Crypto, ls: seq<Layer>, i: nat, k: nat)
    requires Sound(crypto, ls) && i < k <= |ls|
    requires forall x :: i < x < k ==> ls[x].kind !in "i6"
    requires k < |ls| ==> ls[k].kind in "i6"
    ensures InnerIp(crypto, ls, i) == if k < |ls| then ls[k].kind else '\0'
  {
    var r := Inner(Kinds(ls), i, "i6");
    assert forall x :: 0 <= x < |ls| ==> Kinds(ls)[x] == ls[x].kind;
  }

  /** RFC 5840, section 2: WESP names what the ESP header wraps, or nothing if it is encrypted. */
  lemma WespInPacket(crypto: Esp.Crypto, ls: seq<Layer>, payload: seq<byte>, i: nat)
    requires Sound(crypto, ls) && i < |ls| && ls[i].kind == 'w'
    ensures var p, h, m := Nest(crypto, ls, payload, i), ls[i].bytes, ls[i].modified;
      && |p| >= |h| >= 4 && p[3..|h|] == h[3..]
      && (if Has(m, Wesp.WESP_MOD_NEXTHDR) then p[0] == h[0]
          else if h[3] / 32 % 2 == 1 || i + 1 >= |ls| || ls[i + 1].kind != 'e' then p[0] == 0
          else NamesNext(ls, i + 1, p[0]))
  {
    hide Sound, Has, Nest, InnerIp, WrappedPrivate, Seen, Wesp.Finalized, NamesNext, ProtocolOf;
    var l := PlainIs(crypto, ls, payload, i);
    NextIsNamed(ls, i + 1);
    WespReads(l.bytes, l.modified, NextKind(ls, i), NextKind(ls, i + 1), WrappedPrivate(ls, i));
    var f := Wesp.Finalized(l.bytes, l.modified, NextKind(ls, i), NextKind(ls, i + 1), WrappedPrivate(ls, i));
    assert (f + Nest(crypto, ls, payload, i + 1))[3..|f|] == f[3..];
  }

  /** An SCTP header is finished by its own checksum, whatever lies around it and inside. */
  lemma SctpInPacket(crypto: Esp.Crypto, ls: seq<Layer>, payload: seq<byte>, i: nat)
    requires Sound(crypto, ls) && i < |ls| && ls[i].kind == 's'
    ensures var p, h := Nest(crypto, ls, payload, i), ls[i].bytes;
      && |p| >= |h| >= 12 && p[..8] == h[..8] && p[12..|h|] == h[12..]
      && p[..|h|] == Sctp.Finalized(h, ls[i].modified)
  {
    hide Sound, Has, Nest, InnerIp, WrappedPrivate, Seen, NextKind;
    var l := PlainIs(crypto, ls, payload, i);
    PartsOfSum(Sctp.Finalized(l.bytes, l.modified), Nest(crypto, ls, payload, i + 1));
  }

  /** RFC 4303, section 2.6: the receiver who opens ESP finds named what it wraps. */
  lemma EspInPacket(crypto: Esp.Crypto, ls: seq<Layer>, payload: seq<byte>, i: nat)
    requires Sound(crypto, ls) && i < |ls| && ls[i].kind == 'e'
    ensures ls[i].priv.EspPrivate? && |ls[i].bytes| >= 12
    ensures var o := EspReceiver.Open(EspReceiver.AssociationOf(crypto, ls[i].priv), Nest(crypto, ls, payload, i));
      && o.Opened? && o.payload == Nest(crypto, ls, payload, i + 1)
      && if Has(ls[i].modified, Esp.ESP_MOD_NEXTHDR) then o.nexthdr == ls[i].bytes[9] else NamesNext(ls, i, o.nexthdr)
  {
    hide Sound, Has, Nest, NextKind, NamesNext, ProtocolOf, EspReceiver.Open, Esp.Encapsulated;
    LayerIsOk(crypto, ls, i);
    var l := ls[i];
    NestStep(crypto, ls, payload, i);
    NextIsNamed(ls, i);
    EspReceiver.NamesWhatFollows(crypto, l.bytes, l.modified, l.priv, NextKind(ls, i), Nest(crypto, ls, payload, i + 1));
  }

  /** A header of any other kind is sent as it is. */
  lemma OthersAsGiven(crypto: Esp.Crypto, ls: seq<Layer>, payload: seq<byte>, i: nat)
    requires Sound(crypto, ls) && i < |ls| && ls[i].kind !in "i6tucHdaFogwse"
    ensures Nest(crypto, ls, payload, i) == ls[i].bytes + Nest(crypto, ls, payload, i + 1)
  {
    hide Sound, Nest, InnerIp, WrappedPrivate, Seen, NextKind;
    var l := PlainIs(crypto, ls, payload, i);
  }
}
