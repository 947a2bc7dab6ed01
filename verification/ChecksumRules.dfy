/** Where the RFCs ask for more of a checksum field than that the sum verifies: UDP sends an
all-zero result as all ones, and TCP over IPv6 has a pseudo header of its own. */
module ChecksumRules {
  import opened Bytes
  import opened Csum
  import opened Encapsulation
  import opened Receiver
  import opened SendipModule
  import Esp
  import Fields
  import Tcp
  import Transport
  import Udp

  // ----- UDP: RFC 768 and section 8.1 of RFC 8200

  /** The field a sender has to put into a UDP header when s is everything that is summed, the
  field being zero there: zero means that there is no checksum, so a computed zero is all ones. */
  function UdpField(s: seq<byte>): (f: seq<byte>)
    ensures |f| == 2 && f != [0, 0]
  {
    var c := BeChecksum(s);
    if c == 0 then [0xFF, 0xFF]
    else
      assert Word(Be16(c)[1], Be16(c)[0]) == c;
      Be16(c)
  }

  /** The source stores what it computes, which is right exactly when the sum is no positive
  multiple of 65535. */
  lemma StoredIsFieldIff(s: seq<byte>)
    ensures Le16(Checksum(s)) == UdpField(s) <==> !(LeSum(s) > 0 && LeSum(s) % 0xFFFF == 0)
  {
    hide Checksum, BeChecksum, LeSum;
    ByteOrderIndependent(s);
    VerifiesIff(s);
    assert Word(Le16(Checksum(s))[0], Le16(Checksum(s))[1]) == Checksum(s);
    assert Word(Be16(BeChecksum(s))[1], Be16(BeChecksum(s))[0]) == BeChecksum(s);
  }

  /** The checksum field of a finished header, and the header with that field zeroed. */
  lemma CheckedField(h: seq<byte>, at: nat, pseudo: seq<byte>, inside: seq<byte>)
    requires at + 2 <= |h|
    ensures var r, z := Transport.Checked(h, at, pseudo, inside), Poke(h, at, [0, 0]);
      && (r + inside)[at..at + 2] == Le16(Checksum(pseudo + z + inside))
      && Poke(r + inside, at, [0, 0]) == z + inside
  {
    hide Checksum, Le16;
    var r, z := Transport.Checked(h, at, pseudo, inside), Poke(h, at, [0, 0]);
    var c := Le16(Checksum(pseudo + z + inside));
    assert r == Poke(z, at, c);
    assert (r + inside)[at..at + 2] == c;
    assert Poke(r + inside, at, [0, 0]) == z + inside;
  }

  /** UDP over IPv4: the field is the one RFC 768 asks for exactly when the sum over pseudo header,
  zeroed header and data is no multiple of 65535; otherwise it says that there is no checksum. */
  lemma UdpFieldIff(crypto: Esp.Crypto, ls: seq<Layer>, payload: seq<byte>, k: nat)
    requires Sound(crypto, ls) && k < |ls| && ls[k].kind == 'u' && ls[OuterIp(ls, k)].kind == 'i'
    requires !Has(ls[k].modified, Udp.UDP_MOD_CHECK)
    ensures var segment := Nest(crypto, ls, payload, k);
      && |segment| >= 8
      && var s := Ipv4Pseudo(FinalIp(crypto, ls, payload, k), |segment|) + Poke(segment, 6, [0, 0]);
         && (segment[6..8] == UdpField(s) <==> LeSum(s) == 0 || LeSum(s) % 0xFFFF != 0)
         && (segment[6..8] == [0, 0] <==> LeSum(s) > 0 && LeSum(s) % 0xFFFF == 0)
  {
    hide Sound, OuterIp, Seen, Nest, Has, FinalIp, Checksum, LeSum, UdpField, Unless, Poke, Be16, Le16, Transport.Checked,
         Udp.Pseudo, Ipv4Pseudo;
    SegmentIs(crypto, ls, payload, k);
    ChecksummedIsFinal(crypto, ls, payload, k);
    var l, ip := ls[k], Seen(crypto, ls, OuterIp(ls, k), k).bytes;
    var final, inside := FinalIp(crypto, ls, payload, k), Nest(crypto, ls, payload, k + 1);
    var n := |l.bytes| + |inside|;
    var f := Unless(Has(l.modified, Udp.UDP_MOD_LEN), l.bytes, 4, Be16(n));
    var pseudo := Udp.Pseudo('i', ip, f, n);
    SamePseudo4(ip, final, f, n);
    CheckedField(f, 6, pseudo, inside);
    var s := pseudo + Poke(f, 6, [0, 0]) + inside;
    assert s == pseudo + (Poke(f, 6, [0, 0]) + inside);
    StoredIsFieldIff(s);
    ZeroField(s);
  }

  lemma SamePseudo4(ip: seq<byte>, final: seq<byte>, f: seq<byte>, n: nat)
    requires |ip| >= 20 && |final| >= 20 && |f| >= 8 && ip[12..20] == final[12..20] && ip[9] == final[9]
    ensures Udp.Pseudo('i', ip, f, n) == Ipv4Pseudo(final, n)
  {
    hide Be16;
    SliceSplits(final, 12, 16, 20);
  }

  lemma SumsAlike6(ip: seq<byte>, final: seq<byte>, f: seq<byte>, n: nat, z: seq<byte>)
    requires |ip| >= 40 && |final| >= 40 && |f| >= 8 && ip[8..40] == final[8..40]
    ensures LeSum(Udp.Pseudo('6', ip, f, n) + z) == LeSum(Ipv6Pseudo(final, Word(f[5], f[4]), 17) + z)
  {
    hide LeSum, Ipv6Pseudo;
    assert f[4..6] == [f[4], f[5]];
    Udp6Sum(ip, final, f[4..6], z);
  }

  lemma ZeroField(s: seq<byte>)
    ensures Le16(Checksum(s)) == [0, 0] <==> LeSum(s) > 0 && LeSum(s) % 0xFFFF == 0
  {
    hide Checksum, LeSum;
    VerifiesIff(s);
    assert Word(Le16(Checksum(s))[0], Le16(Checksum(s))[1]) == Checksum(s);
  }

  /** UDP over IPv6: the same for section 8.1 of RFC 8200, where a receiver discards the packets
  whose field is zero. */
  lemma Udp6FieldIff(crypto: Esp.Crypto, ls: seq<Layer>, payload: seq<byte>, k: nat)
    requires Sound(crypto, ls) && k < |ls| && ls[k].kind == 'u' && ls[OuterIp(ls, k)].kind == '6'
    requires !Has(ls[k].modified, Udp.UDP_MOD_CHECK)
    ensures var segment := Nest(crypto, ls, payload, k);
      && |segment| >= 8
      && var s := Ipv6Pseudo(FinalIp(crypto, ls, payload, k), Word(segment[5], segment[4]), 17) + Poke(segment, 6, [0, 0]);
         && (segment[6..8] == UdpField(s) <==> LeSum(s) == 0 || LeSum(s) % 0xFFFF != 0)
         && (segment[6..8] == [0, 0] <==> LeSum(s) > 0 && LeSum(s) % 0xFFFF == 0)
  {
    hide Sound, OuterIp, Seen, Nest, Has, FinalIp, Checksum, LeSum, UdpField, Unless, Poke, Be16, Be32, Le16, Transport.Checked,
         Udp.Pseudo, Ipv6Pseudo;
    SegmentIs(crypto, ls, payload, k);
    ChecksummedIsFinal(crypto, ls, payload, k);
    var l, ip := ls[k], Seen(crypto, ls, OuterIp(ls, k), k).bytes;
    var final, inside := FinalIp(crypto, ls, payload, k), Nest(crypto, ls, payload, k + 1);
    var n := |l.bytes| + |inside|;
    var f := Unless(Has(l.modified, Udp.UDP_MOD_LEN), l.bytes, 4, Be16(n));
    var pseudo := Udp.Pseudo('6', ip, f, n);
    Fields.CheckedAt(f, 6, pseudo, inside, 4);
    Fields.CheckedAt(f, 6, pseudo, inside, 5);
    CheckedField(f, 6, pseudo, inside);
    var z := Poke(f, 6, [0, 0]) + inside;
    assert pseudo + Poke(f, 6, [0, 0]) + inside == pseudo + z;
    SumsAlike6(ip, final, f, n, z);
    Same(pseudo + z, Ipv6Pseudo(final, Word(f[5], f[4]), 17) + z);
  }

  /** Sums that agree have the same field. */
  lemma Same(s: seq<byte>, t: seq<byte>)
    requires LeSum(s) == LeSum(t)
    ensures Le16(Checksum(s)) == UdpField(t) <==> LeSum(t) == 0 || LeSum(t) % 0xFFFF != 0
    ensures Le16(Checksum(s)) == [0, 0] <==> LeSum(t) > 0 && LeSum(t) % 0xFFFF == 0
  {
    hide LeSum, UdpField, Le16;
    StoredIsFieldIff(t);
    ZeroField(t);
  }

  /** From port 65502, to port 0, without data, between zero addresses: the sum is 65535, so the
  source stores zero where all ones belong, over IPv4 and over IPv6. */
  lemma ComputedZeroIsStored()
    ensures var h: seq<byte>, ip := [0xFF, 0xDE, 0, 0, 0, 0, 0, 0], Zeros(20)[9 := 17];
      && Udp.Finalized(h, 0, 'i', ip, [])[6..8] == [0, 0]
      && Udp.Finalized(h, 0, '6', Zeros(40), [])[6..8] == [0, 0]
  {
    hide LeSum, Transport.Checked;
    var h: seq<byte>, ip := [0xFF, 0xDE, 0, 0, 0, 0, 0, 0], Zeros(20)[9 := 17];
    var f: seq<byte> := [0xFF, 0xDE, 0, 0] + [0, 8, 0, 0];
    assert Unless(Has(0, Udp.UDP_MOD_LEN), h, 4, Be16(8)) == f;
    FourBytes(0xFF, 0xDE, 0, 0);
    FourBytes(0, 8, 0, 0);
    FourBytes(0, 17, 0, 8);
    FourBytes(0, 0, 0, 17);
    LeSumAppends([0xFF, 0xDE, 0, 0], [0, 8, 0, 0]);
    FromZeros(4, [0, 17, 0, 8], f);
    ZeroStored(f, Udp.Pseudo('i', ip, f, 8), Zeros(8) + [0, 17, 0, 8]);
    FromZeros(16, [0, 8, 0, 0] + [0, 0, 0, 17], f);
    LeSumAppends([0, 8, 0, 0], [0, 0, 0, 17]);
    ZeroStored(f, Udp.Pseudo('6', Zeros(40), f, 8), Zeros(32) + ([0, 8, 0, 0] + [0, 0, 0, 17]));
  }

  lemma FourBytes(a: byte, b: byte, c: byte, d: byte)
    ensures LeSum([a, b, c, d]) == Word(a, b) + Word(c, d)
  {
    assert [a, b, c, d][2..] == [c, d] && [c, d][2..] == [];
    assert LeSum([c, d]) == Word(c, d) + LeSum([]);
  }

  lemma FromZeros(n: nat, s: seq<byte>, t: seq<byte>)
    requires |s| % 2 == 0
    ensures LeSum(Zeros(2 * n) + s + t) == LeSum(s) + LeSum(t)
  {
    hide LeSum;
    ZerosSum(n);
    LeSumAppends(s, t);
    LeSumAppends(Zeros(2 * n), s + t);
    assert Zeros(2 * n) + s + t == Zeros(2 * n) + (s + t);
  }

  lemma ZeroStored(f: seq<byte>, pseudo: seq<byte>, same: seq<byte>)
    requires |f| == 8 && f[6] == 0 && f[7] == 0 && pseudo == same && LeSum(same + f) == 0xFFFF
    ensures Transport.Checked(f, 6, pseudo, [])[6..8] == [0, 0]
  {
    assert Poke(f, 6, [0, 0]) == f;
    assert pseudo + f + [] == same + f;
    VerifiesIff(same + f);
  }

  lemma {:induction false} ZerosSum(n: nat)
    ensures LeSum(Zeros(2 * n)) == 0
  {
    if n > 0 {
      ZerosSum(n - 1);
      assert Zeros(2 * n)[2..] == Zeros(2 * (n - 1));
    }
  }

  // ----- TCP over IPv6

  /** The source sums a protocol number in place of length and next header, so its TCP checksum
  over IPv6 verifies against RFC 8200 exactly when those happen to sum alike. */
  lemma Tcp6VerifiesIff(crypto: Esp.Crypto, ls: seq<Layer>, payload: seq<byte>, k: nat)
    requires Sound(crypto, ls) && k < |ls| && ls[k].kind == 't' && ls[OuterIp(ls, k)].kind == '6'
    requires !Has(ls[k].modified, Tcp.TCP_MOD_CHECK)
    ensures var segment := Nest(crypto, ls, payload, k);
      (Checksum(Ipv6Pseudo(FinalIp(crypto, ls, payload, k), |segment|, 6) + segment) == 0
       <==> (LeSum(Be32(|segment|)) + 1530) % 0xFFFF == 0)
  {
    hide Sound, OuterIp, Seen, Nest, Has, FinalIp, Checksum, LeSum, Tcp.Filled, Tcp.Pseudo, Ipv6Pseudo, Transport.Checked, Be32;
    SegmentIs(crypto, ls, payload, k);
    ChecksummedIsFinal(crypto, ls, payload, k);
    var l, ip := ls[k], Seen(crypto, ls, OuterIp(ls, k), k).bytes;
    var final, inside := FinalIp(crypto, ls, payload, k), Nest(crypto, ls, payload, k + 1);
    var f, pseudo := Tcp.Filled(l.bytes, l.modified, l.rand), Tcp.Pseudo('6', ip, |l.bytes| + |inside|);
    CheckedVerifies(f, 16, pseudo, inside);
    var h := Transport.Checked(f, 16, pseudo, inside);
    assert pseudo + h + inside == pseudo + (h + inside);
    SumsVerifyIff(ip, final, h + inside);
  }

  /** A segment that verifies against the pseudo header of the source. */
  lemma SumsVerifyIff(ip: seq<byte>, final: seq<byte>, segment: seq<byte>)
    requires |ip| >= 40 && |final| >= 40 && final[8..40] == ip[8..40]
    requires Checksum(Tcp.Pseudo('6', ip, |segment|) + segment) == 0
    ensures Checksum(Ipv6Pseudo(final, |segment|, 6) + segment) == 0 <==> (LeSum(Be32(|segment|)) + 1530) % 0xFFFF == 0
  {
    hide Checksum, LeSum, Tcp.Pseudo, Ipv6Pseudo, Be32;
    VerifiesIff(Tcp.Pseudo('6', ip, |segment|) + segment);
    VerifiesIff(Ipv6Pseudo(final, |segment|, 6) + segment);
    Tcp6Sums(ip, final, |segment|, segment);
    AlikeIff(LeSum(ip[8..40]) + LeSum(segment), LeSum(Be32(|segment|)));
  }

  lemma Regroup(a: seq<byte>, b: seq<byte>, c: seq<byte>, d: seq<byte>)
    ensures a + b + c + d == a + (b + c + d) == a + (b + (c + d))
  {
  }

  /** Both sums, part by part. */
  lemma Tcp6Sums(ip: seq<byte>, final: seq<byte>, n: nat, segment: seq<byte>)
    requires |ip| >= 40 && |final| >= 40 && final[8..40] == ip[8..40]
    ensures LeSum(Tcp.Pseudo('6', ip, n) + segment) == LeSum(ip[8..40]) + LeSum(segment) + 6
    ensures LeSum(Ipv6Pseudo(final, n, 6) + segment) == LeSum(ip[8..40]) + LeSum(segment) + LeSum(Be32(n)) + 0x600
  {
    hide LeSum, Be32, Le32, Zeros;
    var a := ip[8..40];
    SliceSplits(final, 8, 24, 40);
    ShortSums();
    FourParts(a, Le32(6), Zeros(4), segment);
    FourParts(a, Be32(n), [0, 0, 0, 6], segment);
    LeSumAppends(Le32(6), Zeros(4));
  }

  lemma FourParts(a: seq<byte>, b: seq<byte>, c: seq<byte>, d: seq<byte>)
    requires |a| % 2 == 0 && |b| % 2 == 0 && |c| % 2 == 0
    ensures LeSum(a + b + c + d) == LeSum(a) + LeSum(b) + LeSum(c) + LeSum(d)
  {
    hide LeSum;
    Regroup(a, b, c, d);
    LeSumAppends(a, b + (c + d));
    LeSumAppends(b, c + d);
    LeSumAppends(c, d);
  }

  lemma ShortSums()
    ensures LeSum(Le32(6) + Zeros(4)) == 6 && LeSum([0, 0, 0, 6]) == 0x600
  {
    hide LeSum, Le32;
    FourBytes(6, 0, 0, 0);
    FourBytes(0, 0, 0, 0);
    FourBytes(0, 0, 0, 6);
    SixIs();
    LeSumAppends([6, 0, 0, 0], [0, 0, 0, 0]);
    assert Zeros(4) == [0, 0, 0, 0];
  }

  lemma SixIs()
    ensures Le32(6) == [6, 0, 0, 0]
  {
    hide Le16;
    Low(6);
    Low(0);
    assert Le32(6) == [6, 0] + [0, 0];
  }

  lemma Low(b: byte)
    ensures Le16(b) == [b, 0] && Be16(b) == [0, b]
  {
  }

  lemma AlikeIff(rest: nat, length: nat)
    requires (rest + 6) % 0xFFFF == 0
    ensures (rest + length + 0x600) % 0xFFFF == 0 <==> (length + 1530) % 0xFFFF == 0
  {
    ModAdds(length + 1530, rest + 6, 0);
  }

  /** A segment that an IPv6 payload length can count has to have 1530 bytes for that. */
  lemma Tcp6LengthIs(n: nat)
    requires n < 0x1_0000
    ensures (LeSum(Be32(n)) + 1530) % 0xFFFF == 0 <==> n == 1530
  {
    hide LeSum, Be32;
    var high, low := n / 0x100, n % 0x100;
    HighLow(n, high, low);
    FourBytes(0, 0, high, low);
    OnlyMultiple(Word(high, low) + 1530);
  }

  lemma HighLow(n: nat, high: byte, low: byte)
    requires n == Word(low, high)
    ensures Be32(n) == [0, 0, high, low]
  {
    hide Be16;
    BigEndian(n, high, low);
    Low(0);
  }

  lemma BigEndian(n: nat, high: byte, low: byte)
    requires n == Word(low, high)
    ensures n / 0x1_0000 == 0 && Be16(n) == [high, low]
  {
    Quotient(high, low);
  }

  lemma Quotient(high: byte, low: byte)
    ensures Word(low, high) / 0x100 == high && Word(low, high) % 0x100 == low && high % 0x100 == high
  {
  }

  lemma OnlyMultiple(x: nat)
    requires 0 < x < 2 * 0xFFFF
    ensures x % 0xFFFF == 0 <==> x == 0xFFFF
  {
  }

  /** An empty TCP segment in an empty IPv6 header does not verify. */
  lemma EmptySegmentFails(crypto: Esp.Crypto)
    ensures var ls := [Layer('6', Zeros(40), 0, NoPrivate, 0), Layer('t', Zeros(20), 0, NoPrivate, 0)];
      && Sound(crypto, ls)
      && var segment := Nest(crypto, ls, [], 1);
         && |segment| == 20
         && Checksum(Ipv6Pseudo(FinalIp(crypto, ls, [], 1), 20, 6) + segment) != 0
  {
    hide Checksum, LeSum, FinalIp, Be32, FinishedTransport, Ipv6Pseudo;
    var ls := [Layer('6', Zeros(40), 0, NoPrivate, 0), Layer('t', Zeros(20), 0, NoPrivate, 0)];
    assert LayerOk(crypto, ls[0]) && LayerOk(crypto, ls[1]);
    OuterIpExists(crypto, ls, 1);
    SegmentIs(crypto, ls, [], 1);
    assert Nest(crypto, ls, [], 2) == [];
    Tcp6VerifiesIff(crypto, ls, [], 1);
    Tcp6LengthIs(20);
  }
}
