/** What a receiver reads from the fields the finalizers fill in, and that they leave every field
alone that the user has given and every field they have no default for. */
module Fields {
  import opened Bytes
  import opened Headers
  import opened SendipModule
  import Csum
  import Gre
  import Icmp
  import Ipv4
  import Ipv6
  import Tcp
  import Transport
  import Udp
  import Wesp

  /** The part of a field assignment that a reader of byte k needs. */
  lemma UnlessAt(given: bool, h: seq<byte>, at: nat, v: seq<byte>, k: nat)
    requires at + |v| <= |h| && k < |h|
    ensures Unless(given, h, at, v)[k] == if !given && at <= k < at + |v| then v[k - at] else h[k]
  {
  }

  /** Byte k of a finished IPv4 header, checksum and protocol apart. */
  lemma Ipv4Byte(h: seq<byte>, modified: bv32, next: char, inside: nat, rand: nat, k: nat)
    requires |h| >= 20 && k < |h| && !(9 <= k < 12)
    ensures var b1 := if Has(modified, Ipv4.IP_MOD_VERSION) then h[0] else Nibbles(4, h[0]);
      Ipv4.Finalized(h, modified, next, inside, rand)[k] ==
        if k == 0 then (if Has(modified, Ipv4.IP_MOD_HEADERLEN) then b1 else Nibbles(b1 / 16, (|h| + 3) / 4))
        else if 2 <= k < 4 && !Has(modified, Ipv4.IP_MOD_TOTLEN) then Be16(|h| + inside)[k - 2]
        else if 4 <= k < 6 && !Has(modified, Ipv4.IP_MOD_ID) then Le16(rand)[k - 4]
        else if k == 8 && !Has(modified, Ipv4.IP_MOD_TTL) then 255
        else h[k]
  {
    hide Has, ProtocolOf, Csum.Checksum, Le16, Be16, Nibbles, Unless, Poke, Ipv4.WithChecksum;
    var v1 := [Nibbles(4, h[0])];
    var h1 := Unless(Has(modified, Ipv4.IP_MOD_VERSION), h, 0, v1);
    var v2 := [Nibbles(h1[0] / 16, (|h| + 3) / 4)];
    var h2 := Unless(Has(modified, Ipv4.IP_MOD_HEADERLEN), h1, 0, v2);
    var h3 := Unless(Has(modified, Ipv4.IP_MOD_TOTLEN), h2, 2, Be16(|h| + inside));
    var h4 := Unless(Has(modified, Ipv4.IP_MOD_ID), h3, 4, Le16(rand));
    var h5 := Unless(Has(modified, Ipv4.IP_MOD_TTL), h4, 8, [255]);
    UnlessAt(Has(modified, Ipv4.IP_MOD_VERSION), h, 0, v1, 0);
    UnlessAt(Has(modified, Ipv4.IP_MOD_VERSION), h, 0, v1, k);
    UnlessAt(Has(modified, Ipv4.IP_MOD_HEADERLEN), h1, 0, v2, k);
    UnlessAt(Has(modified, Ipv4.IP_MOD_TOTLEN), h2, 2, Be16(|h| + inside), k);
    UnlessAt(Has(modified, Ipv4.IP_MOD_ID), h3, 4, Le16(rand), k);
    UnlessAt(Has(modified, Ipv4.IP_MOD_TTL), h4, 8, [255], k);
    WithChecksumAt(h5, k);
    var c := if Has(modified, Ipv4.IP_MOD_CHECK) then h5 else Ipv4.WithChecksum(h5);
    UnlessAt(Has(modified, Ipv4.IP_MOD_PROTOCOL), c, 9, [ProtocolOf(next)], k);
  }

  lemma Ipv4GivenCheck(h: seq<byte>, modified: bv32, next: char, inside: nat, rand: nat)
    requires |h| >= 20
    ensures var f := Ipv4.Finalized(h, modified, next, inside, rand);
      Has(modified, Ipv4.IP_MOD_CHECK) ==> f[10] == h[10] && f[11] == h[11]
  {
    hide Has, ProtocolOf, Ipv4.WithChecksum, Ipv4.Filled, Unless;
    var f := Ipv4.Filled(h, modified, inside, rand);
    FilledAt(h, modified, inside, rand, 10);
    FilledAt(h, modified, inside, rand, 11);
    if Has(modified, Ipv4.IP_MOD_CHECK) {
      UnlessAt(Has(modified, Ipv4.IP_MOD_PROTOCOL), f, 9, [ProtocolOf(next)], 10);
      UnlessAt(Has(modified, Ipv4.IP_MOD_PROTOCOL), f, 9, [ProtocolOf(next)], 11);
    }
  }

  lemma FilledAt(h: seq<byte>, modified: bv32, inside: nat, rand: nat, k: nat)
    requires |h| >= 20 && 9 <= k < |h|
    ensures Ipv4.Filled(h, modified, inside, rand)[k] == h[k]
  {
    hide Has, Le16, Be16, Nibbles, Unless;
    var h1 := Unless(Has(modified, Ipv4.IP_MOD_VERSION), h, 0, [Nibbles(4, h[0])]);
    var h2 := Unless(Has(modified, Ipv4.IP_MOD_HEADERLEN), h1, 0, [Nibbles(h1[0] / 16, (|h| + 3) / 4)]);
    var h3 := Unless(Has(modified, Ipv4.IP_MOD_TOTLEN), h2, 2, Be16(|h| + inside));
    var h4 := Unless(Has(modified, Ipv4.IP_MOD_ID), h3, 4, Le16(rand));
    UnlessAt(Has(modified, Ipv4.IP_MOD_VERSION), h, 0, [Nibbles(4, h[0])], k);
    UnlessAt(Has(modified, Ipv4.IP_MOD_HEADERLEN), h1, 0, [Nibbles(h1[0] / 16, (|h| + 3) / 4)], k);
    UnlessAt(Has(modified, Ipv4.IP_MOD_TOTLEN), h2, 2, Be16(|h| + inside), k);
    UnlessAt(Has(modified, Ipv4.IP_MOD_ID), h3, 4, Le16(rand), k);
    UnlessAt(Has(modified, Ipv4.IP_MOD_TTL), h4, 8, [255], k);
  }

  lemma WithChecksumAt(h: seq<byte>, k: nat)
    requires |h| >= 20 && k < |h| && !(10 <= k < 12)
    ensures Ipv4.WithChecksum(h)[k] == h[k]
  {
    hide Csum.Checksum, Le16;
  }

  /** RFC 791, section 3.1. */
  lemma Ipv4Reads(h: seq<byte>, modified: bv32, next: char, inside: nat, rand: nat)
    requires |h| >= 20
    ensures var f := Ipv4.Finalized(h, modified, next, inside, rand);
      && f[0] / 16 == (if Has(modified, Ipv4.IP_MOD_VERSION) then h[0] / 16 else 4)
      && f[0] % 16 == (if Has(modified, Ipv4.IP_MOD_HEADERLEN) then h[0] % 16 else (|h| + 3) / 4 % 16)
      && f[1] == h[1]
      && Word(f[3], f[2]) == (if Has(modified, Ipv4.IP_MOD_TOTLEN) then Word(h[3], h[2]) else (|h| + inside) % 0x1_0000)
      && Word(f[4], f[5]) == (if Has(modified, Ipv4.IP_MOD_ID) then Word(h[4], h[5]) else rand % 0x1_0000)
      && f[6] == h[6] && f[7] == h[7]
      && f[8] == (if Has(modified, Ipv4.IP_MOD_TTL) then h[8] else 255)
      && (Has(modified, Ipv4.IP_MOD_CHECK) ==> f[10] == h[10] && f[11] == h[11])
      && f[12..] == h[12..]
  {
    Ipv4GivenCheck(h, modified, next, inside, rand);
    hide Has, ProtocolOf, Csum.Checksum, Le16, Be16, Nibbles, Ipv4.Finalized;
    Reads16(|h| + inside);
    Reads16(rand);
    FirstByte(h[0], Has(modified, Ipv4.IP_MOD_VERSION), Has(modified, Ipv4.IP_MOD_HEADERLEN), |h|);
    Ipv4Byte(h, modified, next, inside, rand, 0);
    Ipv4Byte(h, modified, next, inside, rand, 1);
    Ipv4Byte(h, modified, next, inside, rand, 2);
    Ipv4Byte(h, modified, next, inside, rand, 3);
    Ipv4Byte(h, modified, next, inside, rand, 4);
    Ipv4Byte(h, modified, next, inside, rand, 5);
    Ipv4Byte(h, modified, next, inside, rand, 6);
    Ipv4Byte(h, modified, next, inside, rand, 7);
    Ipv4Byte(h, modified, next, inside, rand, 8);
    forall k | 12 <= k < |h| ensures Ipv4.Finalized(h, modified, next, inside, rand)[k] == h[k] {
      Ipv4Byte(h, modified, next, inside, rand, k);
    }
  }

  /** Version and header length, which share a byte. */
  lemma FirstByte(b: byte, versionGiven: bool, lengthGiven: bool, n: nat)
    ensures var b1 := if versionGiven then b else Nibbles(4, b);
      var b2 := if lengthGiven then b1 else Nibbles(b1 / 16, (n + 3) / 4);
      && b2 / 16 == (if versionGiven then b / 16 else 4)
      && b2 % 16 == (if lengthGiven then b % 16 else (n + 3) / 4 % 16)
  {
  }

  lemma NibblesRead(high: nat, low: nat)
    requires high < 16
    ensures Nibbles(high, low) / 16 == high && Nibbles(high, low) % 16 == low % 16
  {
  }

  lemma Ipv6Byte(h: seq<byte>, modified: bv32, next: char, inside: nat, k: nat)
    requires |h| >= 40 && k < |h|
    ensures Ipv6.Finalized(h, modified, next, inside)[k] ==
      if k == 0 && !Has(modified, Ipv6.IPV6_MOD_VERSION) then Nibbles(6, h[0])
      else if 4 <= k < 6 && !Has(modified, Ipv6.IPV6_MOD_PLEN) then Be16(inside)[k - 4]
      else if k == 6 && !Has(modified, Ipv6.IPV6_MOD_NXT) then ProtocolOf(next)
      else if k == 7 && !Has(modified, Ipv6.IPV6_MOD_HLIM) then 32
      else h[k]
  {
    hide Has, ProtocolOf, Be16, Nibbles, Unless;
    var h1 := Unless(Has(modified, Ipv6.IPV6_MOD_VERSION), h, 0, [Nibbles(6, h[0])]);
    var h2 := Unless(Has(modified, Ipv6.IPV6_MOD_PLEN), h1, 4, Be16(inside));
    var h3 := Unless(Has(modified, Ipv6.IPV6_MOD_NXT), h2, 6, [ProtocolOf(next)]);
    UnlessAt(Has(modified, Ipv6.IPV6_MOD_VERSION), h, 0, [Nibbles(6, h[0])], k);
    UnlessAt(Has(modified, Ipv6.IPV6_MOD_PLEN), h1, 4, Be16(inside), k);
    UnlessAt(Has(modified, Ipv6.IPV6_MOD_NXT), h2, 6, [ProtocolOf(next)], k);
    UnlessAt(Has(modified, Ipv6.IPV6_MOD_HLIM), h3, 7, [32], k);
  }

  /** RFC 8200, section 3. */
  lemma Ipv6Reads(h: seq<byte>, modified: bv32, next: char, inside: nat)
    requires |h| >= 40
    ensures var f := Ipv6.Finalized(h, modified, next, inside);
      && f[0] / 16 == (if Has(modified, Ipv6.IPV6_MOD_VERSION) then h[0] / 16 else 6) && f[0] % 16 == h[0] % 16
      && f[1] == h[1] && f[2] == h[2] && f[3] == h[3]
      && Word(f[5], f[4]) == (if Has(modified, Ipv6.IPV6_MOD_PLEN) then Word(h[5], h[4]) else inside % 0x1_0000)
      && f[6] == (if Has(modified, Ipv6.IPV6_MOD_NXT) then h[6] else ProtocolOf(next))
      && f[7] == (if Has(modified, Ipv6.IPV6_MOD_HLIM) then h[7] else 32)
      && f[8..] == h[8..]
  {
    hide Has, ProtocolOf, Be16, Nibbles, Ipv6.Finalized;
    Ipv6Byte(h, modified, next, inside, 0);
    Ipv6Byte(h, modified, next, inside, 1);
    Ipv6Byte(h, modified, next, inside, 2);
    Ipv6Byte(h, modified, next, inside, 3);
    Ipv6Byte(h, modified, next, inside, 4);
    Ipv6Byte(h, modified, next, inside, 5);
    Ipv6Byte(h, modified, next, inside, 6);
    Ipv6Byte(h, modified, next, inside, 7);
    NibblesRead(6, h[0]);
    Reads16(inside);
    forall k | 8 <= k < |h| ensures Ipv6.Finalized(h, modified, next, inside)[k] == h[k] {
      Ipv6Byte(h, modified, next, inside, k);
    }
  }

  lemma TcpByte(h: seq<byte>, modified: bv32, kind: char, ip: seq<byte>, inside: seq<byte>, rand: nat, k: nat)
    requires |ip| >= (if kind == 'i' then 20 else 40) && |h| >= 20 && k < |h| && !(16 <= k < 18)
    ensures Tcp.Finalized(h, modified, kind, ip, inside, rand)[k] ==
      if 4 <= k < 8 && !Has(modified, Tcp.TCP_MOD_SEQ) then Le32(rand)[k - 4]
      else if k == 12 && !Has(modified, Tcp.TCP_MOD_OFF) then Nibbles((|h| + 3) / 4, h[12])
      else if k == 13 && !Has(modified, Tcp.TCP_MOD_SYN) then Tcp.WithSyn(h[13])
      else if 14 <= k < 16 && !Has(modified, Tcp.TCP_MOD_WINDOW) then Be16(0xFFFF)[k - 14]
      else h[k]
  {
    hide Has, Be16, Le32, Nibbles, Unless, Tcp.WithSyn, Tcp.Pseudo, Transport.Checked;
    var h1 := Unless(Has(modified, Tcp.TCP_MOD_SEQ), h, 4, Le32(rand));
    var h2 := Unless(Has(modified, Tcp.TCP_MOD_OFF), h1, 12, [Nibbles((|h| + 3) / 4, h1[12])]);
    var h3 := Unless(Has(modified, Tcp.TCP_MOD_SYN), h2, 13, [Tcp.WithSyn(h2[13])]);
    var f := Unless(Has(modified, Tcp.TCP_MOD_WINDOW), h3, 14, Be16(0xFFFF));
    UnlessAt(Has(modified, Tcp.TCP_MOD_SEQ), h, 4, Le32(rand), 12);
    UnlessAt(Has(modified, Tcp.TCP_MOD_SEQ), h, 4, Le32(rand), 13);
    UnlessAt(Has(modified, Tcp.TCP_MOD_OFF), h1, 12, [Nibbles((|h| + 3) / 4, h1[12])], 13);
    UnlessAt(Has(modified, Tcp.TCP_MOD_SEQ), h, 4, Le32(rand), k);
    UnlessAt(Has(modified, Tcp.TCP_MOD_OFF), h1, 12, [Nibbles((|h| + 3) / 4, h1[12])], k);
    UnlessAt(Has(modified, Tcp.TCP_MOD_SYN), h2, 13, [Tcp.WithSyn(h2[13])], k);
    UnlessAt(Has(modified, Tcp.TCP_MOD_WINDOW), h3, 14, Be16(0xFFFF), k);
    CheckedAt(f, 16, Tcp.Pseudo(kind, ip, |h| + |inside|), inside, k);
  }

  lemma CheckedAt(h: seq<byte>, at: nat, pseudo: seq<byte>, inside: seq<byte>, k: nat)
    requires at + 2 <= |h| && k < |h| && !(at <= k < at + 2)
    ensures Transport.Checked(h, at, pseudo, inside)[k] == h[k]
  {
    hide Csum.Checksum, Le16;
  }

  /** The fields of RFC 9293, section 3.1, in the finished header f of a header h. */
  ghost predicate TcpFields(h: seq<byte>, modified: bv32, rand: nat, f: seq<byte>)
    requires |f| == |h| >= 20
  {
    && (forall k :: 0 <= k < 4 || 8 <= k < 12 || 18 <= k < |h| ==> f[k] == h[k])
    && (if Has(modified, Tcp.TCP_MOD_SEQ) then forall k :: 4 <= k < 8 ==> f[k] == h[k]
        else Word(f[4], f[5]) + 0x1_0000 * Word(f[6], f[7]) == rand % 0x1_0000_0000)
    && f[12] % 16 == h[12] % 16
    && f[12] / 16 == (if Has(modified, Tcp.TCP_MOD_OFF) then h[12] / 16 else (|h| + 3) / 4 % 16)
    && f[13] / 4 == h[13] / 4 && f[13] % 2 == h[13] % 2
    && f[13] / 2 % 2 == (if Has(modified, Tcp.TCP_MOD_SYN) then h[13] / 2 % 2 else 1)
    && (Has(modified, Tcp.TCP_MOD_CHECK) ==> f[16] == h[16] && f[17] == h[17])
    && Word(f[15], f[14]) == (if Has(modified, Tcp.TCP_MOD_WINDOW) then Word(h[15], h[14]) else 0xFFFF)
  }

  lemma TcpReads(h: seq<byte>, modified: bv32, kind: char, ip: seq<byte>, inside: seq<byte>, rand: nat)
    requires |ip| >= (if kind == 'i' then 20 else 40) && |h| >= 20
    ensures TcpFields(h, modified, rand, Tcp.Finalized(h, modified, kind, ip, inside, rand))
  {
    hide Has, Le32, Nibbles, Tcp.Finalized, Tcp.WithSyn;
    var f := Tcp.Finalized(h, modified, kind, ip, inside, rand);
    forall k | 0 <= k < |h| && !(16 <= k < 18)
      ensures k < 4 || 8 <= k < 12 || 18 <= k ==> f[k] == h[k]
      ensures Has(modified, Tcp.TCP_MOD_SEQ) && 4 <= k < 8 ==> f[k] == h[k]
    {
      TcpByte(h, modified, kind, ip, inside, rand, k);
    }
    TcpByte(h, modified, kind, ip, inside, rand, 4);
    TcpByte(h, modified, kind, ip, inside, rand, 5);
    TcpByte(h, modified, kind, ip, inside, rand, 6);
    TcpByte(h, modified, kind, ip, inside, rand, 7);
    Reads32(rand);
    TcpByte(h, modified, kind, ip, inside, rand, 12);
    TcpByte(h, modified, kind, ip, inside, rand, 13);
    TcpByte(h, modified, kind, ip, inside, rand, 14);
    TcpByte(h, modified, kind, ip, inside, rand, 15);
    OffsetByte(h[12], |h|);
    SynByte(h[13]);
    TcpGivenCheck(h, modified, kind, ip, inside, rand);
  }

  lemma TcpGivenCheck(h: seq<byte>, modified: bv32, kind: char, ip: seq<byte>, inside: seq<byte>, rand: nat)
    requires |ip| >= (if kind == 'i' then 20 else 40) && |h| >= 20
    ensures var f := Tcp.Finalized(h, modified, kind, ip, inside, rand);
      Has(modified, Tcp.TCP_MOD_CHECK) ==> f[16] == h[16] && f[17] == h[17]
  {
    hide Has, Tcp.Filled, Transport.Checked, Tcp.Pseudo;
    TcpFilledAt(h, modified, rand, 16);
    TcpFilledAt(h, modified, rand, 17);
  }

  lemma TcpFilledAt(h: seq<byte>, modified: bv32, rand: nat, k: nat)
    requires |h| >= 20 && 16 <= k < |h|
    ensures Tcp.Filled(h, modified, rand)[k] == h[k]
  {
    hide Has, Be16, Le32, Nibbles, Unless, Tcp.WithSyn;
    var h1 := Unless(Has(modified, Tcp.TCP_MOD_SEQ), h, 4, Le32(rand));
    var h2 := Unless(Has(modified, Tcp.TCP_MOD_OFF), h1, 12, [Nibbles((|h| + 3) / 4, h1[12])]);
    var h3 := Unless(Has(modified, Tcp.TCP_MOD_SYN), h2, 13, [Tcp.WithSyn(h2[13])]);
    UnlessAt(Has(modified, Tcp.TCP_MOD_SEQ), h, 4, Le32(rand), k);
    UnlessAt(Has(modified, Tcp.TCP_MOD_OFF), h1, 12, [Nibbles((|h| + 3) / 4, h1[12])], k);
    UnlessAt(Has(modified, Tcp.TCP_MOD_SYN), h2, 13, [Tcp.WithSyn(h2[13])], k);
    UnlessAt(Has(modified, Tcp.TCP_MOD_WINDOW), h3, 14, Be16(0xFFFF), k);
  }

  lemma SynByte(b: byte)
    ensures var r := Tcp.WithSyn(b); r / 4 == b / 4 && r % 2 == b % 2 && r / 2 % 2 == 1
  {
  }

  lemma OffsetByte(b: byte, n: nat)
    ensures Nibbles((n + 3) / 4, b) % 16 == b % 16
    ensures Nibbles((n + 3) / 4, b) / 16 == (n + 3) / 4 % 16
  {
  }

  /** RFC 768. */
  lemma UdpReads(h: seq<byte>, modified: bv32, kind: char, ip: seq<byte>, inside: seq<byte>)
    requires |ip| >= (if kind == 'i' then 20 else 40) && |h| >= 8
    ensures var f := Udp.Finalized(h, modified, kind, ip, inside);
      && f[..4] == h[..4] && f[8..] == h[8..]
      && Word(f[5], f[4]) == (if Has(modified, Udp.UDP_MOD_LEN) then Word(h[5], h[4]) else (|h| + |inside|) % 0x1_0000)
      && (Has(modified, Udp.UDP_MOD_CHECK) ==> f[6..8] == h[6..8])
  {
    hide Has, Transport.Checked, Udp.Pseudo, Be16, Unless;
    var v := Be16(|h| + |inside|);
    Reads16(|h| + |inside|);
    var f := Unless(Has(modified, Udp.UDP_MOD_LEN), h, 4, v);
    var r := Udp.Finalized(h, modified, kind, ip, inside);
    forall k | 0 <= k < |h| && !(6 <= k < 8) ensures r[k] == if !Has(modified, Udp.UDP_MOD_LEN) && 4 <= k < 6 then v[k - 4] else h[k] {
      UnlessAt(Has(modified, Udp.UDP_MOD_LEN), h, 4, v, k);
      CheckedAt(f, 6, Udp.Pseudo(kind, ip, f, |h| + |inside|), inside, k);
    }
    if Has(modified, Udp.UDP_MOD_CHECK) {
      UnlessAt(Has(modified, Udp.UDP_MOD_LEN), h, 4, v, 6);
      UnlessAt(Has(modified, Udp.UDP_MOD_LEN), h, 4, v, 7);
    }
  }

  /** RFC 792 and RFC 4443, section 2.1. */
  lemma IcmpReads(h: seq<byte>, modified: bv32, kind: char, ip: seq<byte>, inside: seq<byte>)
    requires |ip| >= (if kind == 'i' then 20 else 40) && |h| >= 4
    ensures var f := Icmp.Finalized(h, modified, kind, ip, inside);
      && f[0] == (if Has(modified, Icmp.ICMP_MOD_TYPE) then h[0] else if kind == '6' then 128 else 8)
      && f[1] == h[1] && f[4..] == h[4..]
      && (Has(modified, Icmp.ICMP_MOD_CHECK) ==> f[2..4] == h[2..4])
  {
    hide Has, Transport.Checked, Icmp.Pseudo, Unless;
    var f := Unless(Has(modified, Icmp.ICMP_MOD_TYPE), h, 0, [Icmp.DefaultType(kind)]);
    var r := Icmp.Finalized(h, modified, kind, ip, inside);
    forall k | 0 <= k < |h| && (!(2 <= k < 4) || Has(modified, Icmp.ICMP_MOD_CHECK))
      ensures r[k] == if !Has(modified, Icmp.ICMP_MOD_TYPE) && k == 0 then Icmp.DefaultType(kind) else h[k]
    {
      UnlessAt(Has(modified, Icmp.ICMP_MOD_TYPE), h, 0, [Icmp.DefaultType(kind)], k);
      if !Has(modified, Icmp.ICMP_MOD_CHECK) {
        CheckedAt(f, 2, Icmp.Pseudo(kind, ip, |h| + |inside|), inside, k);
      }
    }
  }

  /** RFC 2784, section 2.1: flags and version stay, the protocol type is that of the first IP
  header inside, and nothing behind the checksum changes. */
  lemma GreReads(h: seq<byte>, modified: bv32, innerIp: char, inside: seq<byte>)
    requires |h| >= 8
    ensures var f := Gre.Finalized(h, modified, innerIp, inside);
      && f[0] == h[0] && f[1] == h[1] && f[6..] == h[6..]
      && (Has(modified, Gre.GRE_MOD_PROTOCOL) || innerIp !in "i6" ==> f[2] == h[2] && f[3] == h[3])
      && (!Has(modified, Gre.GRE_MOD_PROTOCOL) && innerIp in "i6" ==>
          Word(f[3], f[2]) == if innerIp == 'i' then 0x0800 else 0x86DD)
      && (!Gre.Flag(h[0], Gre.GRE_CSUM) || Has(modified, Gre.GRE_MOD_CHECKSUM) ==> f[4] == h[4] && f[5] == h[5])
  {
    hide Has, Gre.CoveredChecksum, Gre.Flag, Unless, Le16;
    var v := if innerIp == 'i' then Be16(0x0800) else Be16(0x86DD);
    var given := Has(modified, Gre.GRE_MOD_PROTOCOL) || innerIp !in "i6";
    var f := Unless(given, h, 2, v);
    UnlessAt(given, h, 2, v, 0);
    var whole := !Gre.Flag(f[0], Gre.GRE_CSUM) || Has(modified, Gre.GRE_MOD_CHECKSUM);
    var c := Le16(Gre.CoveredChecksum(f, inside));
    var r := Gre.Finalized(h, modified, innerIp, inside);
    forall k | 0 <= k < |h| && (!(4 <= k < 6) || whole) ensures r[k] == if !given && 2 <= k < 4 then v[k - 2] else h[k] {
      UnlessAt(given, h, 2, v, k);
      UnlessAt(whole, f, 4, c, k);
    }
  }

  /** RFC 5840, section 2: the next header is that of the wrapped ESP trailer, or zero if the
  payload is encrypted; encrypted payloads have no lengths. */
  lemma WespReads(h: seq<byte>, modified: bv32, wrapped: char, afterEsp: char, esp: Private)
    requires |h| >= 4
    ensures var f := Wesp.Finalized(h, modified, wrapped, afterEsp, esp);
      && f[0] == (if Has(modified, Wesp.WESP_MOD_NEXTHDR) then h[0]
                  else if Wesp.Encrypted(h) || wrapped != 'e' then 0 else ProtocolOf(afterEsp))
      && (Has(modified, Wesp.WESP_MOD_HDRLEN) ==> f[1] == h[1]) && (Has(modified, Wesp.WESP_MOD_TRLRLEN) ==> f[2] == h[2])
      && (Wesp.Encrypted(h) && !Has(modified, Wesp.WESP_MOD_HDRLEN) ==> f[1] == 0)
      && (Wesp.Encrypted(h) && !Has(modified, Wesp.WESP_MOD_TRLRLEN) ==> f[2] == 0)
      && f[3..] == h[3..]
  {
    hide Has, ProtocolOf, Wesp.Encrypted, Unless;
    var enc := Wesp.Encrypted(h);
    var v0, v1, v2 := [Wesp.NextHeader(enc, wrapped, afterEsp)], [Wesp.HeaderLength(enc, modified, |h|, esp)],
                      [Wesp.TrailerLength(enc, modified, esp)];
    var h1 := Unless(Has(modified, Wesp.WESP_MOD_NEXTHDR), h, 0, v0);
    var h2 := Unless(Has(modified, Wesp.WESP_MOD_HDRLEN), h1, 1, v1);
    var f := Unless(Has(modified, Wesp.WESP_MOD_TRLRLEN), h2, 2, v2);
    forall k | 0 <= k < |h|
      ensures f[k] == if k == 0 && !Has(modified, Wesp.WESP_MOD_NEXTHDR) then v0[0]
                      else if k == 1 && !Has(modified, Wesp.WESP_MOD_HDRLEN) then v1[0]
                      else if k == 2 && !Has(modified, Wesp.WESP_MOD_TRLRLEN) then v2[0] else h[k]
    {
      UnlessAt(Has(modified, Wesp.WESP_MOD_NEXTHDR), h, 0, v0, k);
      UnlessAt(Has(modified, Wesp.WESP_MOD_HDRLEN), h1, 1, v1, k);
      UnlessAt(Has(modified, Wesp.WESP_MOD_TRLRLEN), h2, 2, v2, k);
    }
  }
}
