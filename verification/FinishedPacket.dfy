/** The packet as sent, from outside: the receiver takes headers off as their bytes tell him, and
checks what he finds. */
module FinishedPacket {
  import opened Bytes
  import opened ChecksumRules
  import opened Csum
  import opened Encapsulation
  import opened Headers
  import opened Peeling
  import opened Receiver
  import opened SendipModule
  import opened Wrappers
  import Esp
  import Icmp
  import Ipv4
  import ReceivedFields
  import Tcp
  import Transport
  import Udp

  /** The checksum of the transport header is left to finalize. */
  predicate Automatic(l: Layer)
  {
    !Has(l.modified, if l.kind == 't' then Tcp.TCP_MOD_CHECK
                     else if l.kind == 'u' then Udp.UDP_MOD_CHECK else Icmp.ICMP_MOD_CHECK)
  }

  // ----- what the receiver checks

  /** The length a UDP segment carries is its own, header and data. */
  predicate TellsOwnLength(kind: char, segment: seq<byte>)
  {
    kind == 'u' ==> |segment| >= 8 && Word(segment[5], segment[4]) == |segment|
  }

  /** RFC 768, RFC 793 and RFC 792. */
  predicate Accepts4(kind: char, ip: seq<byte>, segment: seq<byte>)
    requires |ip| >= 20
  {
    && TellsOwnLength(kind, segment)
    && Checksum((if kind == 'c' then [] else Ipv4Pseudo(ip, |segment|)) + segment) == 0
  }

  /** The pseudo header of section 8.1 of RFC 8200, which for UDP takes the length from UDP itself. */
  function Pseudo6(kind: char, ip: seq<byte>, segment: seq<byte>): (p: seq<byte>)
    requires |ip| >= 40 && (kind == 'u' ==> |segment| >= 8)
    ensures |p| == 40
  {
    if kind == 't' then Ipv6Pseudo(ip, |segment|, 6)
    else if kind == 'u' then Ipv6Pseudo(ip, Word(segment[5], segment[4]), 17)
    else Ipv6Pseudo(ip, |segment|, 58)
  }

  /** A UDP packet without checksum is discarded. */
  predicate Accepts6(kind: char, ip: seq<byte>, segment: seq<byte>)
    requires |ip| >= 40
  {
    && TellsOwnLength(kind, segment)
    && (kind == 'u' ==> segment[6..8] != [0, 0])
    && Checksum(Pseudo6(kind, ip, segment) + segment) == 0
  }

  /** The length udp.c fills in has room in its field, or the user has given the right one. */
  predicate LengthFits(l: Layer, segment: seq<byte>)
  {
    l.kind == 'u' && |l.bytes| >= 8 ==>
      if Has(l.modified, Udp.UDP_MOD_LEN) then Word(l.bytes[5], l.bytes[4]) == |segment| else |segment| < 0x1_0000
  }

  /** When what tcp.c and udp.c put into a segment over IPv6 sums to what the receiver asks for. */
  predicate Sums6(kind: char, ip: seq<byte>, segment: seq<byte>)
    requires |ip| >= 40
  {
    && (kind == 't' ==> (LeSum(Be32(|segment|)) + 1530) % 0xFFFF == 0)
    && (kind == 'u' ==>
        |segment| >= 8
        && var s := LeSum(Pseudo6(kind, ip, segment) + Poke(segment, 6, [0, 0]));
           s == 0 || s % 0xFFFF != 0)
  }

  // ----- transport checksums

  lemma FrontOfIp(crypto: Esp.Crypto, ls: seq<Layer>, payload: seq<byte>, k: nat)
    requires Sound(crypto, ls) && k < |ls| && IsTransport(ls[k].kind)
    ensures 0 <= OuterIp(ls, k) < k && ls[OuterIp(ls, k)].kind in "i6"
    ensures var j := OuterIp(ls, k);
      var final, ip := FinalIp(crypto, ls, payload, k), Nest(crypto, ls, payload, j);
      |final| >= (if ls[j].kind == 'i' then 20 else 40) && final <= ip
  {
    hide Sound, OuterIp, Nest, FinalIp;
    IpHeaderRoom(crypto, ls, k);
    FinalIpIsInPacket(crypto, ls, payload, k);
  }

  lemma SamePseudo(final: seq<byte>, ip: seq<byte>, length: nat, nextHeader: byte)
    requires |final| >= 20 && final <= ip
    ensures Ipv4Pseudo(final, length) == Ipv4Pseudo(ip, length)
    ensures |final| >= 40 ==> Ipv6Pseudo(final, length, nextHeader) == Ipv6Pseudo(ip, length, nextHeader)
  {
    hide Be16, Be32;
    assert forall n :: 0 <= n < |final| ==> final[n] == ip[n];
  }

  /** A UDP segment tells its own length exactly when that fits, with the length filled in, or is
  the one given. */
  lemma UdpLengthIsRightIff(crypto: Esp.Crypto, ls: seq<Layer>, payload: seq<byte>, k: nat)
    requires Sound(crypto, ls) && k < |ls| && ls[k].kind == 'u'
    ensures var segment, h := Nest(crypto, ls, payload, k), ls[k].bytes;
      && |segment| >= 8 && |h| >= 8
      && (Word(segment[5], segment[4]) == |segment|
          <==> if Has(ls[k].modified, Udp.UDP_MOD_LEN) then Word(h[5], h[4]) == |segment| else |segment| < 0x1_0000)
  {
    hide Sound, Nest, Has;
    ReceivedFields.UdpInPacket(crypto, ls, payload, k);
  }

  lemma SegmentLength(crypto: Esp.Crypto, ls: seq<Layer>, payload: seq<byte>, k: nat)
    requires Sound(crypto, ls) && k < |ls| && IsTransport(ls[k].kind)
    ensures TellsOwnLength(ls[k].kind, Nest(crypto, ls, payload, k)) <==> LengthFits(ls[k], Nest(crypto, ls, payload, k))
  {
    hide Sound, Nest, Has;
    if ls[k].kind == 'u' {
      UdpLengthIsRightIff(crypto, ls, payload, k);
    }
  }

  lemma Segment4(crypto: Esp.Crypto, ls: seq<Layer>, payload: seq<byte>, k: nat)
    requires Sound(crypto, ls) && k < |ls| && IsTransport(ls[k].kind) && Automatic(ls[k])
    requires 0 <= OuterIp(ls, k) < |ls| && ls[OuterIp(ls, k)].kind == 'i'
    ensures var ip, segment := Nest(crypto, ls, payload, OuterIp(ls, k)), Nest(crypto, ls, payload, k);
      |ip| >= 20 && (Accepts4(ls[k].kind, ip, segment) <==> LengthFits(ls[k], segment))
  {
    hide Sound, OuterIp, Nest, Has, FinalIp, Checksum, Ipv4Pseudo, TellsOwnLength, LengthFits;
    FrontOfIp(crypto, ls, payload, k);
    SegmentLength(crypto, ls, payload, k);
    var ip, segment := Nest(crypto, ls, payload, OuterIp(ls, k)), Nest(crypto, ls, payload, k);
    SamePseudo(FinalIp(crypto, ls, payload, k), ip, |segment|, 0);
    if ls[k].kind == 't' {
      TcpVerifies(crypto, ls, payload, k);
    } else if ls[k].kind == 'u' {
      UdpVerifies(crypto, ls, payload, k);
    } else {
      IcmpVerifies(crypto, ls, payload, k);
      assert [] + segment == segment;
    }
  }

  lemma Checksum6(crypto: Esp.Crypto, ls: seq<Layer>, payload: seq<byte>, k: nat)
    requires Sound(crypto, ls) && k < |ls| && IsTransport(ls[k].kind) && Automatic(ls[k])
    requires 0 <= OuterIp(ls, k) < |ls| && ls[OuterIp(ls, k)].kind == '6'
    ensures var ip, segment := Nest(crypto, ls, payload, OuterIp(ls, k)), Nest(crypto, ls, payload, k);
      && |ip| >= 40 && (ls[k].kind == 'u' ==> |segment| >= 8)
      && ((ls[k].kind == 'u' ==> segment[6..8] != [0, 0]) && Checksum(Pseudo6(ls[k].kind, ip, segment) + segment) == 0
          <==> Sums6(ls[k].kind, ip, segment))
  {
    hide Sound, OuterIp, Nest, Has, FinalIp, Checksum, Ipv6Pseudo, LeSum, Poke, UdpField;
    FrontOfIp(crypto, ls, payload, k);
    var final, ip, segment := FinalIp(crypto, ls, payload, k), Nest(crypto, ls, payload, OuterIp(ls, k)), Nest(crypto, ls, payload, k);
    if ls[k].kind == 't' {
      SamePseudo(final, ip, |segment|, 6);
      Tcp6VerifiesIff(crypto, ls, payload, k);
    } else if ls[k].kind == 'u' {
      Udp6Verifies(crypto, ls, payload, k);
      Udp6FieldIff(crypto, ls, payload, k);
      LengthFieldIs(segment[4..6]);
      SamePseudo(final, ip, Word(segment[5], segment[4]), 17);
    } else {
      SamePseudo(final, ip, |segment|, 58);
      Icmp6Verifies(crypto, ls, payload, k);
    }
  }

  lemma Segment6(crypto: Esp.Crypto, ls: seq<Layer>, payload: seq<byte>, k: nat)
    requires Sound(crypto, ls) && k < |ls| && IsTransport(ls[k].kind) && Automatic(ls[k])
    requires 0 <= OuterIp(ls, k) < |ls| && ls[OuterIp(ls, k)].kind == '6'
    ensures var ip, segment := Nest(crypto, ls, payload, OuterIp(ls, k)), Nest(crypto, ls, payload, k);
      |ip| >= 40 && (Accepts6(ls[k].kind, ip, segment)
                     <==> LengthFits(ls[k], segment) && Sums6(ls[k].kind, ip, segment))
  {
    hide Sound, OuterIp, Nest, Has, Checksum, TellsOwnLength, LengthFits, Sums6, Pseudo6;
    SegmentLength(crypto, ls, payload, k);
    Checksum6(crypto, ls, payload, k);
  }

  /** Whatever lies around it, ESP layers included: the receiver who takes the headers off one by
  one down to a TCP, UDP or ICMP segment with an automatic checksum accepts it, its checksum and, of
  UDP, its length, over IPv4 exactly when that length fits its field or is the one given, and over
  IPv6 exactly when besides the source's shortcuts do not show. */
  lemma FinishedPacketVerifies(crypto: Esp.Crypto, ls: seq<Layer>, payload: seq<byte>, k: nat)
    requires Sound(crypto, ls) && k < |ls| && IsTransport(ls[k].kind) && Automatic(ls[k])
    requires AllTell(crypto, ls, 0, k)
    ensures 0 <= OuterIp(ls, k) < k
    ensures var j := OuterIp(ls, k);
      var ip := PeelTo(crypto, ls, 0, j, Nest(crypto, ls, payload, 0));
      && ip.Some?
      && var segment := PeelTo(crypto, ls, j, k, ip.value);
         && segment.Some?
         && (ls[j].kind == 'i' ==>
             |ip.value| >= 20 && (Accepts4(ls[k].kind, ip.value, segment.value) <==> LengthFits(ls[k], segment.value)))
         && (ls[j].kind == '6' ==>
             |ip.value| >= 40
             && (Accepts6(ls[k].kind, ip.value, segment.value)
                 <==> LengthFits(ls[k], segment.value) && Sums6(ls[k].kind, ip.value, segment.value)))
  {
    hide Sound, OuterIp, Nest, Has, PeelTo, Automatic, Accepts4, Accepts6, Sums6, LengthFits, TellsLength;
    IpHeaderRoom(crypto, ls, k);
    var j := OuterIp(ls, k);
    TellSplits(crypto, ls, 0, j, k);
    PeelsNest(crypto, ls, payload, 0, j);
    PeelsNest(crypto, ls, payload, j, k);
    if ls[j].kind == 'i' {
      Segment4(crypto, ls, payload, k);
    } else {
      Segment6(crypto, ls, payload, k);
    }
  }

  lemma {:induction false} TellSplits(crypto: Esp.Crypto, ls: seq<Layer>, i: nat, j: nat, k: nat)
    requires Sound(crypto, ls) && i <= j <= k <= |ls| && AllTell(crypto, ls, i, k)
    ensures AllTell(crypto, ls, i, j) && AllTell(crypto, ls, j, k)
    decreases j - i
  {
    hide Sound, TellsLength;
    if i < j {
      TellSplits(crypto, ls, i + 1, j, k);
    }
  }

  // ----- the IPv4 header checksum

  lemma OtherFlag(kind: char, modified: bv32)
    ensures Has(Transport.ClaimedFlags(kind, modified), Ipv4.IP_MOD_CHECK) == Has(modified, Ipv4.IP_MOD_CHECK)
  {
  }

  /** Claiming the protocol of an IPv4 header does not give it a checksum. */
  lemma {:induction false} SeenCheck(crypto: Esp.Crypto, ls: seq<Layer>, j: nat, i: nat)
    requires Sound(crypto, ls) && j < i <= |ls|
    ensures Has(Seen(crypto, ls, j, i).modified, Ipv4.IP_MOD_CHECK) == Has(ls[j].modified, Ipv4.IP_MOD_CHECK)
    decreases |ls| - i
  {
    hide Sound, OuterIp, Has, TransportProtocol, Transport.ClaimedBytes, Transport.ClaimedFlags, IsTransport;
    if i < |ls| {
      SeenCheck(crypto, ls, j, i + 1);
      LayerIsOk(crypto, ls, j);
      var l := Seen(crypto, ls, j, i + 1);
      OtherFlag(l.kind, l.modified);
    }
  }

  /** The finished IPv4 header j, and what tells its length. */
  lemma Ipv4Front(crypto: Esp.Crypto, ls: seq<Layer>, payload: seq<byte>, j: nat)
    requires Sound(crypto, ls) && j < |ls| && ls[j].kind == 'i' && AllTell(crypto, ls, j, j + 1)
    ensures var l, inside := Seen(crypto, ls, j, j + 1), Nest(crypto, ls, payload, j + 1);
      && |l.bytes| >= 20
      && var h := Ipv4.Finalized(l.bytes, l.modified, NextKind(ls, j), |inside|, l.rand);
         && Nest(crypto, ls, payload, j) == h + inside
         && HeaderLength('i', Nest(crypto, ls, payload, j)) == |h|
  {
    hide Sound, Seen, HeaderLength, TellsLength, OuterIp, InnerIp, Ipv4.Finalized, NextKind;
    var inside := Nest(crypto, ls, payload, j + 1);
    LayerIsOk(crypto, ls, j);
    NestStep(crypto, ls, payload, j);
    HeaderTells(crypto, ls, j, inside);
    ReadsInsideHeader('i', FinishedHeader(crypto, ls, j, inside), inside);
  }

  /** The receiver who has arrived at an IPv4 header with an automatic checksum and reads its length
  finds the checksum right exactly when the protocol was given, or a transport header has claimed
  it, or the byte filled in was already there. */
  lemma FinishedHeaderVerifiesIff(crypto: Esp.Crypto, ls: seq<Layer>, payload: seq<byte>, j: nat)
    requires Sound(crypto, ls) && j < |ls| && ls[j].kind == 'i' && AllTell(crypto, ls, 0, j + 1)
    requires !Has(ls[j].modified, Ipv4.IP_MOD_CHECK)
    ensures |ls[j].bytes| >= 20
    ensures var ip := PeelTo(crypto, ls, 0, j, Nest(crypto, ls, payload, 0));
      && ip.Some?
      && var n := HeaderLength('i', ip.value);
         && 20 <= n <= |ip.value|
         && (Checksum(ip.value[..n]) == 0
             <==> Has(ls[j].modified, Ipv4.IP_MOD_PROTOCOL) || Claimer(ls, j, j + 1) >= 0
                  || ProtocolOf(NextKind(ls, j)) == ls[j].bytes[9])
  {
    hide Sound, Seen, Nest, Has, PeelTo, HeaderLength, TellsLength, OuterIp, Ipv4.Finalized, NextKind, Claimer, Checksum,
         ProtocolOf, TransportProtocol;
    TellSplits(crypto, ls, 0, j, j + 1);
    PeelsNest(crypto, ls, payload, 0, j);
    Ipv4Front(crypto, ls, payload, j);
    SeenProtocol(crypto, ls, j, j + 1);
    SeenCheck(crypto, ls, j, j + 1);
    var l, inside := Seen(crypto, ls, j, j + 1), Nest(crypto, ls, payload, j + 1);
    var h := Ipv4.Finalized(l.bytes, l.modified, NextKind(ls, j), |inside|, l.rand);
    PartsOfSum(h, inside);
    Ipv4ChecksumVerifiesIff(l.bytes, l.modified, NextKind(ls, j), |inside|, l.rand);
  }
}
