/** What a receiver who follows the next-header chain of a finished IPv6 packet visits. */
module Walk {
  import opened Bytes
  import opened Headers
  import opened SendipModule
  import opened Encapsulation
  import Ah
  import Chain
  import Hop
  import Ipv6

  // ----- the receiver: RFC 8200, section 4, and RFC 4302, section 2

  datatype Visit = Visit(protocol: byte, rest: seq<byte>)

  predicate IsExtension(protocol: byte)
  {
    protocol in {0, 43, 44, 51, 60}
  }

  /** How long an extension header says it is. */
  function HeaderLength(protocol: byte, b: seq<byte>): (n: nat)
    requires |b| >= 2
    ensures n >= 8
  {
    if protocol == 44 then 8
    else if protocol == 51 then (b[1] as nat + 2) * 4
    else (b[1] as nat + 1) * 8
  }

  /** The headers in the order in which they are met, each with everything from it on; the walk
  ends at the first protocol that is no extension header. */
  function Walk(protocol: byte, b: seq<byte>): (w: seq<Visit>)
    ensures |w| >= 1
    decreases |b|
  {
    [Visit(protocol, b)]
    + if IsExtension(protocol) && |b| >= 2 && HeaderLength(protocol, b) <= |b|
      then Walk(b[0], b[HeaderLength(protocol, b)..])
      else []
  }

  function PayloadLength(packet: seq<byte>): nat
    requires |packet| >= 40
  {
    Word(packet[5], packet[4])
  }

  function WalkPacket(packet: seq<byte>): seq<Visit>
  {
    if |packet| < 40 || |packet| < 40 + PayloadLength(packet) then []
    else Walk(packet[6], packet[40..40 + PayloadLength(packet)])
  }

  // ----- extension headers that tell the truth

  /** The header lets the finalizer fill in the next header, and its length is one it can tell. */
  predicate Tidy(l: Layer)
  {
    match l.kind
    case 'H' => TidyOptions(l)
    case 'd' => TidyOptions(l)
    case 'F' => !Has(l.modified, Chain.FRAG_MOD_NEXTHDR) && |l.bytes| == 8
    case 'a' => !Has(l.modified, Chain.AH_MOD_NEXTHDR) && |l.bytes| >= 12 && Ah.ClaimedLength(l.bytes) == |l.bytes|
    case 'o' => !Has(l.modified, Chain.ROUTE_MOD_NEXTHDR) && |l.bytes| >= 8 && (l.bytes[1] as nat + 1) * 8 == |l.bytes|
    case _ => false
  }

  /** Options that do not fill the allocation. */
  predicate TidyOptions(l: Layer)
  {
    && !Has(l.modified, Hop.HOP_MOD_NEXTHDR)
    && 8 <= |l.bytes| <= 2048 && |l.bytes| % 8 == 0
    && 2 <= Hop.Used(l.bytes, l.modified) != |l.bytes|
  }

  function ProtocolAt(ls: seq<Layer>, i: nat): byte
  {
    ProtocolOf(CharAt(Kinds(ls), i))
  }

  lemma FinishedTellsTruth(l: Layer, next: char, afterNext: char, innerIp: char, wrapped: Private, inside: seq<byte>)
    requires Tidy(l) && |l.bytes| >= Smallest(l.kind)
    ensures IsExtension(ProtocolOf(l.kind))
    ensures var h := FinishedPlain(l, next, afterNext, innerIp, wrapped, inside);
      |h| >= 8 && h[0] == ProtocolOf(next) && HeaderLength(ProtocolOf(l.kind), h) == |h|
  {
    hide Has, Hop.LowBits;
    var h := l.bytes;
    if l.kind == 'H' || l.kind == 'd' {
      OptionsTellTruth(h, l.modified, next);
    } else {
      assert Poke(h, 0, [ProtocolOf(next)])[1] == h[1];
    }
  }

  lemma OptionsTellTruth(h: seq<byte>, modified: bv32, next: char)
    requires 8 <= |h| <= 2048 && |h| % 8 == 0
    requires !Has(modified, Hop.HOP_MOD_NEXTHDR) && 2 <= Hop.Used(h, modified) != |h|
    ensures var f := Hop.Finalized(h, modified, next); f[0] == ProtocolOf(next) && (f[1] as nat + 1) * 8 == |h|
  {
    hide Has, Hop.LowBits, ProtocolOf;
    var used, named := Hop.Used(h, modified), Poke(h, 0, [ProtocolOf(next)]);
    assert |h| / 8 - 1 < 0x100;
    assert named[0] == ProtocolOf(next) && named[1] == h[1];
    assert used < |h| ==> Poke(named, used, Zeros(|h| - used))[0] == ProtocolOf(next);
  }

  lemma WalkStep(protocol: byte, b: seq<byte>)
    ensures !IsExtension(protocol) ==> Walk(protocol, b) == [Visit(protocol, b)]
    ensures IsExtension(protocol) && |b| >= 2 && HeaderLength(protocol, b) <= |b| ==>
      Walk(protocol, b) == [Visit(protocol, b)] + Walk(b[0], b[HeaderLength(protocol, b)..])
  {
    hide IsExtension, HeaderLength;
  }

  /** Walking the packet from header k on visits the headers in order up to header m, the first
  one that is no extension header (or the payload, if there is none). */
  lemma {:induction false} WalksChain(crypto: Esp.Crypto, ls: seq<Layer>, payload: seq<byte>, k: nat, m: nat)
    requires Sound(crypto, ls) && k <= m <= |ls|
    requires forall i :: k <= i < m ==> Tidy(ls[i])
    requires !IsExtension(ProtocolAt(ls, m))
    ensures var w := Walk(ProtocolAt(ls, k), Nest(crypto, ls, payload, k));
      && |w| == m - k + 1
      && forall i :: k <= i <= m ==> w[i - k] == Visit(ProtocolAt(ls, i), Nest(crypto, ls, payload, i))
    decreases m - k
  {
    hide *;
    WalkStep(ProtocolAt(ls, k), Nest(crypto, ls, payload, k));
    if k < m {
      StepOverHeader(crypto, ls, payload, k);
      WalksChain(crypto, ls, payload, k + 1, m);
    }
  }

  lemma StepOverHeader(crypto: Esp.Crypto, ls: seq<Layer>, payload: seq<byte>, k: nat)
    requires Sound(crypto, ls) && k < |ls| && Tidy(ls[k])
    ensures var b := Nest(crypto, ls, payload, k);
      && IsExtension(ProtocolAt(ls, k)) && |b| >= 8 && b[0] == ProtocolAt(ls, k + 1)
      && HeaderLength(ProtocolAt(ls, k), b) <= |b|
      && b[HeaderLength(ProtocolAt(ls, k), b)..] == Nest(crypto, ls, payload, k + 1)
  {
    hide Sound, Nest, Seen, HeaderLength, IsExtension, ProtocolOf, FinishedPlain, InnerIp, OuterIp;
    assert LayerOk(crypto, ls[k]) && ls[k].kind in "HdFao" by {
      LayerIsOk(crypto, ls, k);
    }
    var l, inside := ls[k], Nest(crypto, ls, payload, k + 1);
    var h := FinishedPlain(l, NextKind(ls, k), NextKind(ls, k + 1), InnerIp(crypto, ls, k), WrappedPrivate(ls, k), inside);
    NestStep(crypto, ls, payload, k);
    SeenUnclaimed(crypto, ls, k, k + 1);
    FinishedTellsTruth(l, NextKind(ls, k), NextKind(ls, k + 1), InnerIp(crypto, ls, k), WrappedPrivate(ls, k), inside);
    SameLength(ProtocolOf(l.kind), h, inside);
    assert Nest(crypto, ls, payload, k) == h + inside;
    assert ProtocolAt(ls, k) == ProtocolOf(l.kind);
  }

  lemma SameLength(protocol: byte, h: seq<byte>, inside: seq<byte>)
    requires |h| >= 2
    ensures HeaderLength(protocol, h + inside) == HeaderLength(protocol, h)
  {
  }

  lemma Ipv6TellsTruth(h: seq<byte>, modified: bv32, next: char, inside: nat)
    requires |h| == 40 && inside < 0x1_0000
    requires !Has(modified, Ipv6.IPV6_MOD_PLEN) && !Has(modified, Ipv6.IPV6_MOD_NXT)
    ensures var f := Ipv6.Finalized(h, modified, next, inside);
      f[6] == ProtocolOf(next) && PayloadLength(f) == inside
  {
    hide Has, Be16, ProtocolOf, Nibbles;
  }

  lemma WalkPacketIs(packet: seq<byte>, inside: seq<byte>)
    requires |packet| >= 40 && 40 + PayloadLength(packet) == |packet| && packet[40..] == inside
    ensures WalkPacket(packet) == Walk(packet[6], inside)
  {
    hide Walk;
    assert packet[40..40 + PayloadLength(packet)] == inside;
  }

  lemma EntersChain(crypto: Esp.Crypto, ls: seq<Layer>, payload: seq<byte>, j: nat)
    requires Sound(crypto, ls) && j < |ls| && ls[j].kind == '6' && |ls[j].bytes| == 40
    requires !Has(ls[j].modified, Ipv6.IPV6_MOD_PLEN) && !Has(ls[j].modified, Ipv6.IPV6_MOD_NXT)
    requires |Nest(crypto, ls, payload, j + 1)| < 0x1_0000
    ensures var packet := Nest(crypto, ls, payload, j);
      && |packet| >= 40 && 40 + PayloadLength(packet) == |packet|
      && packet[6] == ProtocolAt(ls, j + 1)
      && packet[40..] == Nest(crypto, ls, payload, j + 1)
  {
    hide Sound, Nest, Seen, Has, Ipv6.Finalized, ProtocolOf, InnerIp, OuterIp;
    LayerIsOk(crypto, ls, j);
    var l, inside := ls[j], Nest(crypto, ls, payload, j + 1);
    NestStep(crypto, ls, payload, j);
    SeenUnclaimed(crypto, ls, j, j + 1);
    var f := Ipv6.Finalized(l.bytes, l.modified, NextKind(ls, j), |inside|);
    Ipv6TellsTruth(l.bytes, l.modified, NextKind(ls, j), |inside|);
    assert Nest(crypto, ls, payload, j) == f + inside;
  }

  /** The finished packet around an IPv6 header and a chain of extension headers: the payload
  length reaches exactly the end, and following the chain visits exactly the modules of the list
  in their order, each at its own finished packet. */
  lemma WalkVisitsModules(crypto: Esp.Crypto, ls: seq<Layer>, payload: seq<byte>, j: nat, m: nat)
    requires Sound(crypto, ls) && j < m <= |ls| && ls[j].kind == '6' && |ls[j].bytes| == 40
    requires !Has(ls[j].modified, Ipv6.IPV6_MOD_PLEN) && !Has(ls[j].modified, Ipv6.IPV6_MOD_NXT)
    requires forall i :: j < i < m ==> Tidy(ls[i])
    requires !IsExtension(ProtocolAt(ls, m))
    requires |Nest(crypto, ls, payload, j + 1)| < 0x1_0000
    ensures var packet := Nest(crypto, ls, payload, j);
      var w := WalkPacket(packet);
      && |packet| >= 40 && 40 + PayloadLength(packet) == |packet|
      && |w| == m - j
      && forall i :: j < i <= m ==> w[i - j - 1] == Visit(ProtocolAt(ls, i), Nest(crypto, ls, payload, i))
  {
    hide *;
    EntersChain(crypto, ls, payload, j);
    WalksChain(crypto, ls, payload, j + 1, m);
    var packet := Nest(crypto, ls, payload, j);
    assert WalkPacket(packet) == Walk(ProtocolAt(ls, j + 1), Nest(crypto, ls, payload, j + 1)) by {
      WalkPacketIs(packet, Nest(crypto, ls, payload, j + 1));
    }
  }
}
