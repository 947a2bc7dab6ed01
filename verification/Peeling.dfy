/** Taking a finished packet apart from the outside: the receiver reads how long a header is from
its bytes, and opens ESP with the security association. */
module Peeling {
  import opened Bytes
  import opened Encapsulation
  import opened Headers
  import opened SendipModule
  import opened Wrappers
  import Chain
  import Esp
  import EspReceiver
  import Fields
  import Gre
  import GreOptions
  import Hop
  import Ipv4
  import Tcp
  import Transport
  import Wesp

  /** The length of the header at the front of b; 0 if it cannot be read. A routing word of GRE
  counts as one, the entry that ends the list. */
  function HeaderLength(kind: char, b: seq<byte>): nat
  {
    match kind
    case 'i' => if |b| < 1 then 0 else 4 * (b[0] % 16)
    case '6' => 40
    case 't' => if |b| < 13 then 0 else 4 * (b[12] / 16)
    case 'u' => 8
    case 'c' => 4
    case 'H' => if |b| < 2 then 0 else 8 * (b[1] as nat + 1)
    case 'd' => if |b| < 2 then 0 else 8 * (b[1] as nat + 1)
    case 'o' => if |b| < 2 then 0 else 8 * (b[1] as nat + 1)
    case 'F' => 8
    case 'a' => if |b| < 2 then 0 else 4 * (b[1] as nat + 2)
    case 'g' => if |b| < 1 then 0 else 4 + 4 * GreOptions.Size(GreOptions.FlagsIn(b[0]))
    case 'w' => if |b| < 4 then 0 else if b[3] / 16 % 2 == 1 then 8 else 4
    case _ => 0
  }

  /** The packet inside the outermost header. */
  function Peel(crypto: Esp.Crypto, kind: char, priv: Private, packet: seq<byte>): Maybe<seq<byte>>
  {
    if kind == 'e' then
      if !priv.EspPrivate? then None
      else
        match EspReceiver.Open(EspReceiver.AssociationOf(crypto, priv), packet)
        case Rejected => None
        case Opened(_, _, payload, _) => Some(payload)
    else
      var n := HeaderLength(kind, packet);
      if 0 < n <= |packet| then Some(packet[n..]) else None
  }

  /** The header, when it is finished, will tell its own length. */
  predicate TellsLength(l: Layer)
    requires |l.bytes| >= Smallest(l.kind)
  {
    var n := |l.bytes|;
    match l.kind
    case 'i' => if Has(l.modified, Ipv4.IP_MOD_HEADERLEN) then 4 * (l.bytes[0] % 16) == n else n % 4 == 0 && n <= 60
    case '6' => n == 40
    case 't' => if Has(l.modified, Tcp.TCP_MOD_OFF) then 4 * (l.bytes[12] / 16) == n else n % 4 == 0 && n <= 60
    case 'u' => n == 8
    case 'c' => n == 4
    case 'H' => Hop.Used(l.bytes, l.modified) != n && n % 8 == 0 && n <= 2048
    case 'd' => Hop.Used(l.bytes, l.modified) != n && n % 8 == 0 && n <= 2048
    case 'o' => n >= 2 && 8 * (l.bytes[1] as nat + 1) == n
    case 'F' => n == 8
    case 'a' => 4 * (l.bytes[1] as nat + 2) == n
    case 'g' => 4 + 4 * GreOptions.Size(GreOptions.FlagsIn(l.bytes[0])) == n
    case 'w' => (if l.bytes[3] / 16 % 2 == 1 then 8 else 4) == n
    case 'e' => true
    case _ => false
  }

  lemma QuarterNibble(n: nat)
    ensures 4 * ((n + 3) / 4 % 16) == n <==> n % 4 == 0 && n <= 60
  {
  }

  lemma Eighths(n: nat)
    requires n >= 8
    ensures 8 * ((n / 8 - 1) % 0x100 + 1) == n <==> n % 8 == 0 && n <= 2048
  {
  }

  /** The length byte of an options header, which the source leaves alone when it is filled. */
  lemma OptionsTell(h: seq<byte>, modified: bv32, next: char)
    requires |h| >= 8
    ensures 8 * (Hop.Finalized(h, modified, next)[1] as nat + 1) == |h|
      <==> Hop.Used(h, modified) != |h| && |h| % 8 == 0 && |h| <= 2048
  {
    hide Has, ProtocolOf, Hop.LowBits;
    Eighths(|h|);
    var named := Unless(Has(modified, Hop.HOP_MOD_NEXTHDR), h, 0, [ProtocolOf(next)]);
    assert named[1] == h[1];
  }

  lemma Ipv4Tells(h: seq<byte>, modified: bv32, next: char, inside: nat, rand: nat)
    requires |h| >= 20
    ensures 4 * (Ipv4.Finalized(h, modified, next, inside, rand)[0] % 16) == |h|
      <==> if Has(modified, Ipv4.IP_MOD_HEADERLEN) then 4 * (h[0] % 16) == |h| else |h| % 4 == 0 && |h| <= 60
  {
    hide Has, Ipv4.Finalized, Nibbles;
    Fields.Ipv4Byte(h, modified, next, inside, rand, 0);
    var b1 := if Has(modified, Ipv4.IP_MOD_VERSION) then h[0] else Nibbles(4, h[0]);
    LowNibble(4, h[0]);
    LowNibble(b1 / 16, (|h| + 3) / 4);
    QuarterNibble(|h|);
  }

  lemma LowNibble(high: nat, low: nat)
    ensures Nibbles(high, low) % 16 == low % 16
  {
  }

  lemma TcpTells(h: seq<byte>, modified: bv32, kind: char, ip: seq<byte>, inside: seq<byte>, rand: nat)
    requires |ip| >= (if kind == 'i' then 20 else 40) && |h| >= 20
    ensures 4 * (Tcp.Finalized(h, modified, kind, ip, inside, rand)[12] / 16) == |h|
      <==> if Has(modified, Tcp.TCP_MOD_OFF) then 4 * (h[12] / 16) == |h| else |h| % 4 == 0 && |h| <= 60
  {
    hide Has, Tcp.Finalized;
    Fields.TcpByte(h, modified, kind, ip, inside, rand, 12);
    QuarterNibble(|h|);
  }

  /** Claiming the protocol of an IPv4 header does not touch what tells its length. */
  lemma {:induction false} SeenTells(crypto: Esp.Crypto, ls: seq<Layer>, j: nat, i: nat)
    requires Sound(crypto, ls) && j < i <= |ls|
    ensures var l := Seen(crypto, ls, j, i);
      |ls[j].bytes| >= Smallest(ls[j].kind) && |l.bytes| >= Smallest(l.kind) && (TellsLength(l) <==> TellsLength(ls[j]))
    decreases |ls| - i
  {
    hide Sound, TellsLength;
    LayerIsOk(crypto, ls, j);
    if ls[j].kind != 'i' {
      SeenUnclaimed(crypto, ls, j, i);
    } else if i < |ls| {
      SeenTells(crypto, ls, j, i + 1);
      var l := Seen(crypto, ls, j, i + 1);
      ClaimTells(l, TransportProtocol(ls[i].kind));
    }
  }

  lemma ClaimTells(l: Layer, proto: byte)
    requires l.kind == 'i' && |l.bytes| >= 20
    ensures TellsLength(l.(bytes := Transport.ClaimedBytes('i', l.modified, l.bytes, proto),
                           modified := Transport.ClaimedFlags('i', l.modified)))
      <==> TellsLength(l)
  {
    OtherFlag(l.modified);
  }

  lemma OtherFlag(modified: bv32)
    ensures Has(modified | Ipv4.IP_MOD_PROTOCOL, Ipv4.IP_MOD_HEADERLEN) == Has(modified, Ipv4.IP_MOD_HEADERLEN)
  {
  }

  /** What tells the length of a header is inside the header. */
  lemma ReadsInsideHeader(kind: char, h: seq<byte>, inside: seq<byte>)
    requires |h| >= Smallest(kind)
    ensures HeaderLength(kind, h + inside) == HeaderLength(kind, h)
  {
    assert forall n :: 0 <= n < |h| ==> (h + inside)[n] == h[n];
  }

  /** A header is taken off at the right place exactly when it tells its length. */
  lemma PeelsAtEnd(crypto: Esp.Crypto, kind: char, priv: Private, h: seq<byte>, inside: seq<byte>)
    requires kind != 'e' && |h| >= Smallest(kind)
    ensures Peel(crypto, kind, priv, h + inside) == Some(inside) <==> 0 < HeaderLength(kind, h) == |h|
  {
    hide HeaderLength;
    ReadsInsideHeader(kind, h, inside);
    PartsOfSum(h, inside);
  }

  lemma TransportTells(l: Layer, kind: char, ip: seq<byte>, inside: seq<byte>)
    requires |l.bytes| >= Smallest(l.kind) && IsTransport(l.kind)
    requires |ip| >= (if kind == 'i' then 20 else 40)
    ensures 0 < HeaderLength(l.kind, FinishedTransport(l, kind, ip, inside)) == |l.bytes| <==> TellsLength(l)
  {
    hide Has, Tcp.Finalized;
    if l.kind == 't' {
      TcpTells(l.bytes, l.modified, kind, ip, inside, l.rand);
    }
  }

  lemma PlainTells(l: Layer, next: char, afterNext: char, innerIp: char, wrapped: Private, inside: seq<byte>)
    requires |l.bytes| >= Smallest(l.kind) && !IsTransport(l.kind) && l.kind != 'e'
    ensures 0 < HeaderLength(l.kind, FinishedPlain(l, next, afterNext, innerIp, wrapped, inside)) == |l.bytes|
      <==> TellsLength(l)
  {
    hide Has, Hop.Finalized, Hop.Used, Ipv4.Finalized, Chain.Finalized, Gre.Finalized, Wesp.Finalized;
    match l.kind {
      case 'i' => Ipv4Tells(l.bytes, l.modified, next, |inside|, l.rand);
      case 'H' => OptionsTell(l.bytes, l.modified, next);
      case 'd' => OptionsTell(l.bytes, l.modified, next);
      case 'a' => ChainKeeps(l.kind, l.bytes, l.modified, next);
      case 'o' => ChainKeeps(l.kind, l.bytes, l.modified, next);
      case 'g' => Fields.GreReads(l.bytes, l.modified, innerIp, inside);
      case 'w' => WespKeeps(l.bytes, l.modified, next, afterNext, wrapped);
      case _ =>
    }
  }

  lemma ChainKeeps(kind: char, h: seq<byte>, modified: bv32, next: char)
    requires |h| >= 2
    ensures Chain.Finalized(kind, h, modified, next)[1] == h[1]
  {
    hide Has, ProtocolOf, Unless;
    UnlessKeeps(Has(modified, Chain.NextHeaderFlag(kind)), h, 0, [ProtocolOf(next)], 1, 2);
    var r := Chain.Finalized(kind, h, modified, next);
    assert r[1..2][0] == h[1..2][0];
  }

  lemma WespKeeps(h: seq<byte>, modified: bv32, wrapped: char, afterEsp: char, esp: Private)
    requires |h| >= 4
    ensures Wesp.Finalized(h, modified, wrapped, afterEsp, esp)[3] == h[3]
  {
    hide Wesp.Finalized, Wesp.Encrypted, Has, ProtocolOf;
    Fields.WespReads(h, modified, wrapped, afterEsp, esp);
    var r := Wesp.Finalized(h, modified, wrapped, afterEsp, esp);
    assert r[3..][0] == h[3..][0];
  }

  lemma HeaderTells(crypto: Esp.Crypto, ls: seq<Layer>, i: nat, inside: seq<byte>)
    requires Sound(crypto, ls) && i < |ls| && ls[i].kind != 'e'
    ensures |ls[i].bytes| >= Smallest(ls[i].kind)
    ensures 0 < HeaderLength(ls[i].kind, FinishedHeader(crypto, ls, i, inside)) == |ls[i].bytes| <==> TellsLength(ls[i])
  {
    hide Sound, Seen, HeaderLength, TellsLength, FinishedPlain, FinishedTransport, OuterIp, InnerIp;
    LayerIsOk(crypto, ls, i);
    SeenTells(crypto, ls, i, i + 1);
    if IsTransport(ls[i].kind) {
      IpHeaderRoom(crypto, ls, i);
      var ip := Seen(crypto, ls, OuterIp(ls, i), i);
      TransportTells(ls[i], ip.kind, ip.bytes, inside);
    } else {
      PlainTells(Seen(crypto, ls, i, i + 1), NextKind(ls, i), NextKind(ls, i + 1), InnerIp(crypto, ls, i),
                 WrappedPrivate(ls, i), inside);
    }
  }

  /** Header i around anything is taken off again, with nothing lost and nothing left over, exactly
  when it tells its length; ESP always is. */
  lemma PeelsWrapIff(crypto: Esp.Crypto, ls: seq<Layer>, i: nat, inside: seq<byte>)
    requires Sound(crypto, ls) && i < |ls|
    ensures |ls[i].bytes| >= Smallest(ls[i].kind)
    ensures Peel(crypto, ls[i].kind, ls[i].priv, Wrap(crypto, ls, i, inside)) == Some(inside) <==> TellsLength(ls[i])
  {
    hide Sound, Seen, HeaderLength, FinishedHeader, Esp.Encapsulated, Esp.Fits, EspReceiver.Open, NextKind;
    LayerIsOk(crypto, ls, i);
    var l := ls[i];
    if l.kind == 'e' {
      PeelsEsp(crypto, l, NextKind(ls, i), inside);
    } else {
      hide TellsLength;
      var h := FinishedHeader(crypto, ls, i, inside);
      HeaderTells(crypto, ls, i, inside);
      PeelsAtEnd(crypto, l.kind, l.priv, h, inside);
    }
  }

  lemma PeelsEsp(crypto: Esp.Crypto, l: Layer, next: char, inside: seq<byte>)
    requires l.kind == 'e' && LayerOk(crypto, l)
    ensures Esp.Fits(l.bytes, l.modified, l.priv)
    ensures Peel(crypto, 'e', l.priv, Esp.Encapsulated(crypto, l.bytes, l.modified, l.priv, next, inside)) == Some(inside)
  {
    hide Esp.Encapsulated, EspReceiver.Open;
    EspReceiver.OpensEncapsulated(crypto, l.bytes, l.modified, l.priv, next, inside);
  }

  /** The packet inside headers i to k - 1, taken off one by one. */
  function PeelTo(crypto: Esp.Crypto, ls: seq<Layer>, i: nat, k: nat, packet: seq<byte>): Maybe<seq<byte>>
    requires i <= k <= |ls|
    decreases k - i
  {
    if i == k then Some(packet)
    else
      match Peel(crypto, ls[i].kind, ls[i].priv, packet)
      case None => None
      case Some(inside) => PeelTo(crypto, ls, i + 1, k, inside)
  }

  /** Headers i to k - 1 tell their lengths. */
  predicate AllTell(crypto: Esp.Crypto, ls: seq<Layer>, i: nat, k: nat)
    requires Sound(crypto, ls) && i <= k <= |ls|
    decreases k - i
  {
    assert i < k ==> LayerOk(crypto, ls[i]);
    i < k ==> TellsLength(ls[i]) && AllTell(crypto, ls, i + 1, k)
  }

  /** A receiver who reads the lengths from the bytes arrives, header by header and through any
  number of ESP layers, exactly at the nested packets. */
  lemma {:induction false} PeelsNest(crypto: Esp.Crypto, ls: seq<Layer>, payload: seq<byte>, i: nat, k: nat)
    requires Sound(crypto, ls) && i <= k <= |ls| && AllTell(crypto, ls, i, k)
    ensures PeelTo(crypto, ls, i, k, Nest(crypto, ls, payload, i)) == Some(Nest(crypto, ls, payload, k))
    decreases k - i
  {
    hide Sound, Nest, Wrap, Peel, TellsLength;
    if i < k {
      NestStep(crypto, ls, payload, i);
      PeelsWrapIff(crypto, ls, i, Nest(crypto, ls, payload, i + 1));
      PeelsNest(crypto, ls, payload, i + 1, k);
    }
  }
}
