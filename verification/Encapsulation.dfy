/** What a packet is: every header wrapped around the finished packet inside it.

This is the specification the assembly in sendip.c is proved against. It is a recursion over
the list of headers; nothing in it is shared or changed in place.
*/
module Encapsulation {
  import opened Bytes
  import opened Headers
  import opened SendipModule
  import Ipv4
  import Ipv6
  import Transport
  import Udp
  import Tcp
  import Icmp
  import Hop
  import Chain
  import Gre
  import Wesp
  import Sctp
  import Esp

  /** A header as its module's options have left it: option character, bytes, flags of the given
  fields, private part, and the random number its finalizer will draw if it needs one. */
  datatype Layer = Layer(kind: char, bytes: seq<byte>, modified: bv32, priv: Private, rand: nat)

  function Kinds(ls: seq<Layer>): (r: string)
    ensures |r| == |ls|
    ensures forall i :: 0 <= i < |ls| ==> r[i] == ls[i].kind
  {
    seq(|ls|, i requires 0 <= i < |ls| => ls[i].kind)
  }

  // ----- what the modules hand over

  /** The smallest header a module of this kind makes. */
  function Smallest(kind: char): nat
  {
    match kind
    case 'i' => 20
    case '6' => 40
    case 't' => 20
    case 'u' => 8
    case 'c' => 4
    case 'H' => 8
    case 'd' => 8
    case 'a' => 12
    case 'F' => 8
    case 'o' => 4
    case 'g' => 8
    case 's' => 12
    case 'w' => 4
    case 'e' => 12
    case _ => 0
  }

  predicate LayerOk(crypto: Esp.Crypto, l: Layer)
  {
    && l.kind != '\0'
    && |l.bytes| >= Smallest(l.kind)
    && (l.kind == 'e' ==> Esp.Fits(l.bytes, l.modified, l.priv) && (crypto.auth ==> l.priv.icvlen > 0))
  }

  /** A WESP header that takes its lengths from the header it wraps wraps an ESP header. */
  predicate WrapsEsp(ls: seq<Layer>, i: nat)
    requires i < |ls|
  {
    (ls[i].kind == 'w' && |ls[i].bytes| >= 4 && Wesp.NeedsEsp(ls[i].bytes, ls[i].modified))
    ==> (i + 1 < |ls| && ls[i + 1].priv.EspPrivate?)
  }

  /** The header lists sendip sends: the outermost header is an IP header. */
  predicate Sound(crypto: Esp.Crypto, ls: seq<Layer>)
  {
    && (|ls| > 0 ==> ls[0].kind in "i6")
    && (forall i :: 0 <= i < |ls| ==> LayerOk(crypto, ls[i]))
    && (forall i :: 0 <= i < |ls| ==> WrapsEsp(ls, i))
  }

  lemma LayerIsOk(crypto: Esp.Crypto, ls: seq<Layer>, i: nat)
    requires Sound(crypto, ls) && i < |ls|
    ensures LayerOk(crypto, ls[i])
  {
  }

  /** Where header i starts in the packet before anything is trimmed. */
  function Offset(ls: seq<Layer>, i: nat): nat
    requires i <= |ls|
  {
    if i == 0 then 0 else Offset(ls, i - 1) + |ls[i - 1].bytes|
  }

  // ----- the protocol field of IPv4 headers

  predicate IsTransport(kind: char)
  {
    kind in "tuc"
  }

  function TransportProtocol(kind: char): byte
  {
    if kind == 't' then Tcp.IPPROTO_TCP else if kind == 'u' then Udp.IPPROTO_UDP else Icmp.IPPROTO_ICMP
  }

  function OuterIp(ls: seq<Layer>, i: nat): int
    requires i <= |ls|
  {
    Outer(Kinds(ls), i, "i6")
  }

  lemma OuterIpExists(crypto: Esp.Crypto, ls: seq<Layer>, i: nat)
    requires Sound(crypto, ls) && 0 < i <= |ls|
    ensures 0 <= OuterIp(ls, i) < i && ls[OuterIp(ls, i)].kind in "i6"
  {
    assert Kinds(ls)[0] in "i6";
  }

  /** Header j as it is when the headers from i inwards are finished: an IPv4 header whose
  protocol was not given has that of the first transport header finished around which it is the
  nearest IP header. */
  function Seen(crypto: Esp.Crypto, ls: seq<Layer>, j: nat, i: nat): (l: Layer)
    requires Sound(crypto, ls) && j < i <= |ls|
    ensures l.kind == ls[j].kind && |l.bytes| == |ls[j].bytes| && l.priv == ls[j].priv && l.rand == ls[j].rand
    decreases |ls| - i
  {
    if i == |ls| then ls[j]
    else
      var l := Seen(crypto, ls, j, i + 1);
      if IsTransport(ls[i].kind) && OuterIp(ls, i) == j then
        var proto := TransportProtocol(ls[i].kind);
        assert LayerOk(crypto, ls[j]);
        l.(bytes := Transport.ClaimedBytes(l.kind, l.modified, l.bytes, proto),
           modified := Transport.ClaimedFlags(l.kind, l.modified))
      else l
  }

  /** Finalizing transport header i changes what is seen of the header it claims, and no other. */
  lemma SeenStep(crypto: Esp.Crypto, ls: seq<Layer>, i: nat, j: nat)
    requires Sound(crypto, ls) && j < i < |ls| && IsTransport(ls[i].kind)
    ensures OuterIp(ls, i) == j ==> ls[j].kind == 'i' ==> |ls[j].bytes| >= 20
    ensures var seen, before := Seen(crypto, ls, j, i), Seen(crypto, ls, j, i + 1);
      && (OuterIp(ls, i) != j ==> seen == before)
      && (OuterIp(ls, i) == j ==>
          && seen.bytes == Transport.ClaimedBytes(ls[j].kind, before.modified, before.bytes, TransportProtocol(ls[i].kind))
          && seen.modified == Transport.ClaimedFlags(ls[j].kind, before.modified))
  {
    hide OuterIp, Transport.ClaimedFlags, Transport.ClaimedBytes, TransportProtocol;
    assert LayerOk(crypto, ls[j]);
  }

  /** Only IPv4 headers are ever claimed. */
  lemma {:induction false} SeenUnclaimed(crypto: Esp.Crypto, ls: seq<Layer>, j: nat, i: nat)
    requires Sound(crypto, ls) && j < i <= |ls| && ls[j].kind != 'i'
    ensures Seen(crypto, ls, j, i) == ls[j]
    decreases |ls| - i
  {
    hide Sound;
    if i < |ls| {
      SeenUnclaimed(crypto, ls, j, i + 1);
    }
  }

  // ----- encapsulation

  function NextKind(ls: seq<Layer>, i: nat): char
  {
    CharAt(Kinds(ls), i + 1)
  }

  function WrappedPrivate(ls: seq<Layer>, i: nat): Private
  {
    if i + 1 < |ls| then ls[i + 1].priv else NoPrivate
  }

  /** The first IP header inside header i. */
  function InnerIp(crypto: Esp.Crypto, ls: seq<Layer>, i: nat): char
    requires Sound(crypto, ls)
  {
    assert forall k :: 0 <= k < |ls| ==> LayerOk(crypto, ls[k]);
    CharAt(Kinds(ls), Inner(Kinds(ls), i, "i6"))
  }

  /** The finished form of a transport header, `ip` being the IP header around it as it then is. */
  function FinishedTransport(l: Layer, kind: char, ip: seq<byte>, inside: seq<byte>): (h: seq<byte>)
    requires |l.bytes| >= Smallest(l.kind) && IsTransport(l.kind)
    requires |ip| >= (if kind == 'i' then 20 else 40)
    ensures |h| == |l.bytes|
  {
    if l.kind == 't' then Tcp.Finalized(l.bytes, l.modified, kind, ip, inside, l.rand)
    else if l.kind == 'u' then Udp.Finalized(l.bytes, l.modified, kind, ip, inside)
    else Icmp.Finalized(l.bytes, l.modified, kind, ip, inside)
  }

  /** The finished transport header i around `inside`. */
  function TransportHeader(crypto: Esp.Crypto, ls: seq<Layer>, i: nat, inside: seq<byte>): (h: seq<byte>)
    requires Sound(crypto, ls) && i < |ls| && IsTransport(ls[i].kind)
    ensures |h| == |ls[i].bytes|
  {
    IpHeaderRoom(crypto, ls, i);
    var ip := Seen(crypto, ls, OuterIp(ls, i), i);
    FinishedTransport(ls[i], ip.kind, ip.bytes, inside)
  }

  lemma IpHeaderRoom(crypto: Esp.Crypto, ls: seq<Layer>, i: nat)
    requires Sound(crypto, ls) && i < |ls| && ls[i].kind !in "i6"
    ensures 0 <= OuterIp(ls, i) < i && ls[OuterIp(ls, i)].kind in "i6"
    ensures |ls[OuterIp(ls, i)].bytes| >= (if ls[OuterIp(ls, i)].kind == 'i' then 20 else 40)
    ensures |ls[i].bytes| >= Smallest(ls[i].kind)
  {
    OuterIpExists(crypto, ls, i);
    assert LayerOk(crypto, ls[OuterIp(ls, i)]) && LayerOk(crypto, ls[i]);
  }

  /** The finished form of a header that is neither a transport header nor ESP, from what its
  finalizer looks at: its neighbours' kinds, the IP header inside, a wrapped ESP header's lengths. */
  function FinishedPlain(l: Layer, next: char, afterNext: char, innerIp: char, wrapped: Private, inside: seq<byte>): (h: seq<byte>)
    requires |l.bytes| >= Smallest(l.kind)
    ensures |h| == |l.bytes|
  {
    match l.kind
    case 'i' => Ipv4.Finalized(l.bytes, l.modified, next, |inside|, l.rand)
    case '6' => Ipv6.Finalized(l.bytes, l.modified, next, |inside|)
    case 'H' => Hop.Finalized(l.bytes, l.modified, next)
    case 'd' => Hop.Finalized(l.bytes, l.modified, next)
    case 'a' => Chain.Finalized(l.kind, l.bytes, l.modified, next)
    case 'F' => Chain.Finalized(l.kind, l.bytes, l.modified, next)
    case 'o' => Chain.Finalized(l.kind, l.bytes, l.modified, next)
    case 'g' => Gre.Finalized(l.bytes, l.modified, innerIp, inside)
    case 'w' => Wesp.Finalized(l.bytes, l.modified, next, afterNext, wrapped)
    case 's' => Sctp.Finalized(l.bytes, l.modified)
    case _ => l.bytes
  }

  /** The finished header i around `inside`, for every kind but ESP. */
  function FinishedHeader(crypto: Esp.Crypto, ls: seq<Layer>, i: nat, inside: seq<byte>): (h: seq<byte>)
    requires Sound(crypto, ls) && i < |ls| && ls[i].kind != 'e'
    ensures |h| == |ls[i].bytes|
  {
    assert LayerOk(crypto, ls[i]);
    if IsTransport(ls[i].kind) then TransportHeader(crypto, ls, i, inside)
    else FinishedPlain(Seen(crypto, ls, i, i + 1), NextKind(ls, i), NextKind(ls, i + 1), InnerIp(crypto, ls, i),
                       WrappedPrivate(ls, i), inside)
  }

  /** Header i around `inside`. */
  function Wrap(crypto: Esp.Crypto, ls: seq<Layer>, i: nat, inside: seq<byte>): (r: seq<byte>)
    requires Sound(crypto, ls) && i < |ls|
    ensures |r| <= |ls[i].bytes| + |inside|
  {
    assert LayerOk(crypto, ls[i]);
    if ls[i].kind == 'e' then
      Esp.Encapsulated(crypto, ls[i].bytes, ls[i].modified, ls[i].priv, NextKind(ls, i), inside)
    else FinishedHeader(crypto, ls, i, inside) + inside
  }

  /** The packet from header i inwards. */
  function Nest(crypto: Esp.Crypto, ls: seq<Layer>, payload: seq<byte>, i: nat): seq<byte>
    requires Sound(crypto, ls) && i <= |ls|
    decreases |ls| - i
  {
    if i == |ls| then payload else Wrap(crypto, ls, i, Nest(crypto, ls, payload, i + 1))
  }

  lemma NestStep(crypto: Esp.Crypto, ls: seq<Layer>, payload: seq<byte>, i: nat)
    requires Sound(crypto, ls) && i < |ls|
    ensures Nest(crypto, ls, payload, i) == Wrap(crypto, ls, i, Nest(crypto, ls, payload, i + 1))
  {
    hide Sound, Wrap;
  }

  // ----- sizes

  /** Finishing a header never needs more room than it was given. */
  lemma {:induction false} NestFits(crypto: Esp.Crypto, ls: seq<Layer>, payload: seq<byte>, i: nat)
    requires Sound(crypto, ls) && i <= |ls|
    ensures Offset(ls, i) + |Nest(crypto, ls, payload, i)| <= Offset(ls, |ls|) + |payload|
    decreases |ls| - i
  {
    hide Wrap, Sound;
    if i < |ls| {
      NestFits(crypto, ls, payload, i + 1);
    }
  }

  lemma {:induction false} OffsetsGrow(ls: seq<Layer>, i: nat, j: nat)
    requires i < j <= |ls|
    ensures Offset(ls, i) + |ls[i].bytes| <= Offset(ls, j)
    decreases j
  {
    if i + 1 < j {
      OffsetsGrow(ls, i, j - 1);
    }
  }
}
