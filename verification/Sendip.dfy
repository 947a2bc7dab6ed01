/** The assembly in sendip.c: all headers and the data are copied into one buffer, and then every
module finalizes its header in place, from the innermost one outwards. */
module Sendip {
  import opened Bytes
  import opened Headers
  import opened SendipModule
  import opened Encapsulation
  import Csum
  import Ipv4
  import Ipv6
  import Transport
  import Udp
  import Tcp
  import Icmp
  import Hop
  import Chain
  import Gre
  import Wesp
  import Sctp
  import Esp

  // ----- the buffer while it is being finalized

  /** The buffer s when the headers from i inwards are finished: the others lie where they were
  copied to, and the finished part of the packet starts where header i did. */
  ghost predicate Laid(crypto: Esp.Crypto, ls: seq<Layer>, payload: seq<byte>, i: nat, s: seq<byte>)
    requires Sound(crypto, ls) && i <= |ls|
  {
    var done := Nest(crypto, ls, payload, i);
    && Offset(ls, i) + |done| <= |s|
    && s[Offset(ls, i)..Offset(ls, i) + |done|] == done
    && forall j :: 0 <= j < i ==> HeaderLies(crypto, ls, i, s, j)
  }

  ghost predicate HeaderLies(crypto: Esp.Crypto, ls: seq<Layer>, i: nat, s: seq<byte>, j: nat)
    requires Sound(crypto, ls) && j < i <= |ls|
  {
    && Offset(ls, j) + |ls[j].bytes| <= |s|
    && s[Offset(ls, j)..Offset(ls, j) + |ls[j].bytes|] == Seen(crypto, ls, j, i).bytes
  }

  lemma PokeBehind(s: seq<byte>, at: nat, t: seq<byte>, from: nat, to: nat)
    requires from <= to <= at && at + |t| <= |s|
    ensures Poke(s, at, t)[from..to] == s[from..to]
  {
  }

  lemma PokeFront(s: seq<byte>, at: nat, h: seq<byte>, inside: seq<byte>)
    requires at + |h| + |inside| <= |s| && s[at + |h|..at + |h| + |inside|] == inside
    ensures Poke(s, at, h)[at..at + |h| + |inside|] == h + inside
  {
  }

  lemma PokeLies(crypto: Esp.Crypto, ls: seq<Layer>, i: nat, s: seq<byte>, packet: seq<byte>, j: nat)
    requires Sound(crypto, ls) && j < i < |ls| && HeaderLies(crypto, ls, i, s, j)
    requires Offset(ls, i) + |packet| <= |s|
    ensures HeaderLies(crypto, ls, i, Poke(s, Offset(ls, i), packet), j)
  {
    hide Sound, Poke;
    OffsetsGrow(ls, j, i);
    PokeBehind(s, Offset(ls, i), packet, Offset(ls, j), Offset(ls, j) + |ls[j].bytes|);
  }

  /** A finalizer that wrote `packet` at the start of its header and nothing else. */
  lemma StepPlain(crypto: Esp.Crypto, ls: seq<Layer>, payload: seq<byte>, i: nat, s: seq<byte>, packet: seq<byte>)
    requires Sound(crypto, ls) && i < |ls| && !IsTransport(ls[i].kind)
    requires Laid(crypto, ls, payload, i + 1, s)
    requires var inside := Nest(crypto, ls, payload, i + 1);
      && Offset(ls, i) + |packet| <= |s|
      && (packet == Wrap(crypto, ls, i, inside)
          || (|packet| == |ls[i].bytes| && packet + inside == Wrap(crypto, ls, i, inside)))
    ensures Laid(crypto, ls, payload, i, Poke(s, Offset(ls, i), packet))
  {
    hide Wrap, Sound, Poke;
    var at, inside := Offset(ls, i), Nest(crypto, ls, payload, i + 1);
    var t := Poke(s, at, packet);
    forall j | 0 <= j < i ensures HeaderLies(crypto, ls, i, t, j) {
      assert HeaderLies(crypto, ls, i + 1, s, j);
      assert HeaderLies(crypto, ls, i, s, j);
      PokeLies(crypto, ls, i, s, packet, j);
    }
    if packet == Wrap(crypto, ls, i, inside) {
      PokedSlice(s, at, packet);
    } else {
      PokeFront(s, at, packet, inside);
    }
  }

  /** The claim of transport header i turns every header outside it into what is seen from it. */
  lemma ClaimLies(crypto: Esp.Crypto, ls: seq<Layer>, i: nat, s: seq<byte>, o: nat, flags: bv32, j: nat)
    requires Sound(crypto, ls) && i < |ls| && IsTransport(ls[i].kind)
    requires o < i && OuterIp(ls, i) == o && |ls[o].bytes| >= 20 && flags == Seen(crypto, ls, o, i + 1).modified
    requires HeaderLies(crypto, ls, i + 1, s, o)
    requires j < i && HeaderLies(crypto, ls, i + 1, s, j)
    ensures HeaderLies(crypto, ls, i,
      Transport.ClaimedBuffer(ls[o].kind, flags, s, Offset(ls, o), TransportProtocol(ls[i].kind)), j)
  {
    hide *;
    var proto := TransportProtocol(ls[i].kind);
    LiesAt(crypto, ls, i + 1, s, j);
    LiesAt(crypto, ls, i + 1, s, o);
    SeenStep(crypto, ls, i, j);
    if j == o {
      Transport.ClaimInPlace(ls[o].kind, flags, s, Offset(ls, o), proto, |ls[o].bytes|);
    } else {
      ClaimOutside(ls, j, o, flags, s, proto);
    }
    LiesThere(crypto, ls, i, Transport.ClaimedBuffer(ls[o].kind, flags, s, Offset(ls, o), proto), j);
  }

  lemma LiesThere(crypto: Esp.Crypto, ls: seq<Layer>, i: nat, s: seq<byte>, j: nat)
    requires Sound(crypto, ls) && j < i <= |ls| && Offset(ls, j) + |ls[j].bytes| <= |s|
    requires s[Offset(ls, j)..Offset(ls, j) + |ls[j].bytes|] == Seen(crypto, ls, j, i).bytes
    ensures HeaderLies(crypto, ls, i, s, j)
  {
    hide Sound, Seen, Offset;
  }

  /** After the claim, and after the transport header is written, every header outside it lies
  where it was and is what is seen from it. */
  lemma TransportLies(crypto: Esp.Crypto, ls: seq<Layer>, i: nat, s: seq<byte>, o: nat, flags: bv32, h: seq<byte>, j: nat)
    requires Sound(crypto, ls) && i < |ls| && IsTransport(ls[i].kind)
    requires o < i && OuterIp(ls, i) == o && |ls[o].bytes| >= 20 && flags == Seen(crypto, ls, o, i + 1).modified
    requires HeaderLies(crypto, ls, i + 1, s, o)
    requires j < i && HeaderLies(crypto, ls, i + 1, s, j)
    requires Offset(ls, o) + 20 <= |s| && Offset(ls, i) + |h| <= |s|
    ensures var t := Transport.ClaimedBuffer(ls[o].kind, flags, s, Offset(ls, o), TransportProtocol(ls[i].kind));
      HeaderLies(crypto, ls, i, t, j) && HeaderLies(crypto, ls, i, Poke(t, Offset(ls, i), h), j)
  {
    hide *;
    var t := Transport.ClaimedBuffer(ls[o].kind, flags, s, Offset(ls, o), TransportProtocol(ls[i].kind));
    ClaimLies(crypto, ls, i, s, o, flags, j);
    PokeLies(crypto, ls, i, t, h, j);
  }

  /** A transport finalizer: it claims the protocol of the IP header around it and writes its own
  header. */
  lemma StepTransport(crypto: Esp.Crypto, ls: seq<Layer>, payload: seq<byte>, i: nat, s: seq<byte>, o: nat, flags: bv32)
    requires Sound(crypto, ls) && 0 < i < |ls| && IsTransport(ls[i].kind)
    requires Laid(crypto, ls, payload, i + 1, s)
    requires OuterIp(ls, i) == o && flags == Seen(crypto, ls, o, i + 1).modified
    ensures Offset(ls, o) + 20 <= Offset(ls, o) + |ls[o].bytes| <= Offset(ls, i)
    ensures Offset(ls, i) + |ls[i].bytes| <= |s|
    ensures var inside := Nest(crypto, ls, payload, i + 1);
      var t := Transport.ClaimedBuffer(ls[o].kind, flags, s, Offset(ls, o), TransportProtocol(ls[i].kind));
      && t[Offset(ls, o)..Offset(ls, o) + |ls[o].bytes|] == Seen(crypto, ls, o, i).bytes
      && Laid(crypto, ls, payload, i, Poke(t, Offset(ls, i), TransportHeader(crypto, ls, i, inside)))
  {
    hide Sound, Seen, Wrap, Poke, TransportHeader, IsTransport, OuterIp, TransportProtocol, HeaderLies;
    hide Transport.ClaimedBuffer, Transport.ClaimedBytes;
    TransportIsInside(ls, i);
    IpHeaderRoom(crypto, ls, i);
    OffsetsGrow(ls, o, i);
    var at, from, inside := Offset(ls, i), Offset(ls, o), Nest(crypto, ls, payload, i + 1);
    var proto := TransportProtocol(ls[i].kind);
    var t := Transport.ClaimedBuffer(ls[o].kind, flags, s, from, proto);
    var h := TransportHeader(crypto, ls, i, inside);
    forall j | 0 <= j < i ensures HeaderLies(crypto, ls, i, t, j) && HeaderLies(crypto, ls, i, Poke(t, at, h), j) {
      assert HeaderLies(crypto, ls, i + 1, s, j) && HeaderLies(crypto, ls, i + 1, s, o);
      TransportLies(crypto, ls, i, s, o, flags, h, j);
    }
    LiesAt(crypto, ls, i, t, o);
    Transport.ClaimElsewhere(ls[o].kind, flags, s, from, proto, at + |h|, at + |h| + |inside|);
    PokeFront(t, at, h, inside);
    WrapsTransport(crypto, ls, i, inside);
  }

  lemma TransportIsInside(ls: seq<Layer>, i: nat)
    requires i < |ls| && IsTransport(ls[i].kind)
    ensures ls[i].kind !in "i6" && ls[i].kind != 'i'
  {
  }

  lemma LiesAt(crypto: Esp.Crypto, ls: seq<Layer>, i: nat, s: seq<byte>, j: nat)
    requires Sound(crypto, ls) && j < i <= |ls| && HeaderLies(crypto, ls, i, s, j)
    ensures Offset(ls, j) + |ls[j].bytes| <= |s|
    ensures s[Offset(ls, j)..Offset(ls, j) + |ls[j].bytes|] == Seen(crypto, ls, j, i).bytes
  {
  }

  lemma WrapsTransport(crypto: Esp.Crypto, ls: seq<Layer>, i: nat, inside: seq<byte>)
    requires Sound(crypto, ls) && i < |ls| && IsTransport(ls[i].kind)
    ensures Wrap(crypto, ls, i, inside) == TransportHeader(crypto, ls, i, inside) + inside
  {
  }

  /** The claim leaves every other header alone. */
  lemma ClaimOutside(ls: seq<Layer>, j: nat, o: nat, flags: bv32, s: seq<byte>, proto: byte)
    requires j < |ls| && o < |ls| && j != o && |ls[o].bytes| >= 20
    requires Offset(ls, j) + |ls[j].bytes| <= |s| && Offset(ls, o) + |ls[o].bytes| <= |s|
    ensures Transport.ClaimedBuffer(ls[o].kind, flags, s, Offset(ls, o), proto)[Offset(ls, j)..Offset(ls, j) + |ls[j].bytes|]
      == s[Offset(ls, j)..Offset(ls, j) + |ls[j].bytes|]
  {
    hide Offset;
    if j < o {
      OffsetsGrow(ls, j, o);
      PokeBehind(s, Offset(ls, o) + 9, [proto], Offset(ls, j), Offset(ls, j) + |ls[j].bytes|);
    } else {
      OffsetsGrow(ls, o, j);
      Transport.ClaimElsewhere(ls[o].kind, flags, s, Offset(ls, o), proto, Offset(ls, j), Offset(ls, j) + |ls[j].bytes|);
    }
  }

  // ----- the objects while the buffer is being finalized

  /** Every header keeps its place in the buffer and its private part. */
  ghost predicate Placed(ls: seq<Layer>, packs: seq<SendipData>, buf: array<byte>)
    reads packs
  {
    && |packs| == |ls|
    && (forall j, k :: 0 <= j < k < |packs| ==> packs[j] != packs[k])
    && forall j :: 0 <= j < |packs| ==>
         packs[j].data == buf && packs[j].start == Offset(ls, j) && packs[j].priv == ls[j].priv
  }

  /** The headers outside i are as they were, up to claimed protocols. */
  ghost predicate Waiting(crypto: Esp.Crypto, ls: seq<Layer>, packs: seq<SendipData>, i: nat)
    requires Sound(crypto, ls) && i <= |ls| == |packs|
    reads packs
  {
    forall j :: 0 <= j < i ==>
      packs[j].allocLen == |ls[j].bytes| && packs[j].modified == Seen(crypto, ls, j, i).modified
  }

  /** The state of the finalize loop before header i - 1 is finalized: `d` is the window over the
  finished part. */
  ghost predicate Ready(crypto: Esp.Crypto, ls: seq<Layer>, payload: seq<byte>, i: nat,
                        packs: seq<SendipData>, buf: array<byte>, d: SendipData)
    requires Sound(crypto, ls) && i <= |ls|
    reads packs, d, buf
  {
    && Placed(ls, packs, buf) && Waiting(crypto, ls, packs, i)
    && d !in packs && d.data == buf
    && d.start == Offset(ls, i) && d.allocLen == |Nest(crypto, ls, payload, i)|
    && Laid(crypto, ls, payload, i, buf[..])
    && Offset(ls, |ls|) + |payload| + 40 <= Csum.INT_MAX
  }

  /** The state after the finalizer of header i: only the window has not moved yet. */
  ghost predicate Finished(crypto: Esp.Crypto, ls: seq<Layer>, payload: seq<byte>, i: nat,
                           packs: seq<SendipData>, buf: array<byte>, d: SendipData)
    requires Sound(crypto, ls) && i < |ls|
    reads packs, d, buf
  {
    && Placed(ls, packs, buf) && Waiting(crypto, ls, packs, i)
    && d !in packs && d.data == buf
    && d.start == packs[i].start + packs[i].allocLen
    && packs[i].allocLen + d.allocLen == |Nest(crypto, ls, payload, i)|
    && Laid(crypto, ls, payload, i, buf[..])
    && Offset(ls, |ls|) + |payload| + 40 <= Csum.INT_MAX
  }

  /** What a finalizer finds: its own header and the finished packet inside it, side by side. */
  lemma Adjacent(crypto: Esp.Crypto, ls: seq<Layer>, payload: seq<byte>, i: nat,
                 packs: seq<SendipData>, buf: array<byte>, d: SendipData)
    requires Sound(crypto, ls) && i < |ls| && Ready(crypto, ls, payload, i + 1, packs, buf, d)
    ensures |packs| == |ls| && packs[i].Within() && d.Within()
    ensures packs[i] != d && packs[i].data == d.data == buf && packs[i].start + packs[i].allocLen == d.start
    ensures packs[i].start == Offset(ls, i) && packs[i].allocLen == |ls[i].bytes| && packs[i].priv == ls[i].priv
    ensures packs[i].Contents() == Seen(crypto, ls, i, i + 1).bytes
    ensures packs[i].modified == Seen(crypto, ls, i, i + 1).modified
    ensures d.Contents() == Nest(crypto, ls, payload, i + 1)
    ensures packs[i].allocLen + d.allocLen + 40 <= Csum.INT_MAX
    ensures Laid(crypto, ls, payload, i + 1, buf[..])
  {
    hide Sound, Seen, Nest;
    assert HeaderLies(crypto, ls, i + 1, buf[..], i);
    NestFits(crypto, ls, payload, i + 1);
    var at, n := packs[i].start, packs[i].allocLen;
    assert buf[at..at + n] == buf[..][at..at + n];
    assert buf[d.start..d.start + d.allocLen] == buf[..][d.start..d.start + d.allocLen];
  }

  lemma WrappedPart(crypto: Esp.Crypto, ls: seq<Layer>, payload: seq<byte>, i: nat,
                    packs: seq<SendipData>, buf: array<byte>, d: SendipData)
    requires Sound(crypto, ls) && i < |ls| && Ready(crypto, ls, payload, i + 1, packs, buf, d)
    ensures |packs| == |ls|
    ensures (if i + 1 < |packs| then packs[i + 1].priv else NoPrivate) == WrappedPrivate(ls, i)
  {
    hide Sound, Laid, Waiting, Nest;
  }

  lemma KindBounds(crypto: Esp.Crypto, ls: seq<Layer>, i: nat)
    requires Sound(crypto, ls) && i < |ls|
    ensures LayerOk(crypto, ls[i]) && WrapsEsp(ls, i) && '\0' !in Kinds(ls)
  {
    assert forall k :: 0 <= k < |ls| ==> LayerOk(crypto, ls[k]);
  }

  /** Calls the finalizer of a header that only writes itself. */
  method RunPlain(hdrs: string, i: nat, packs: seq<SendipData>, buf: array<byte>, d: SendipData, rand: nat, ghost l: Layer)
    requires i < |hdrs| == |packs| && '\0' !in hdrs && packs[i].Within() && d.Within() && packs[i].data == d.data == buf
    requires packs[i].start + packs[i].allocLen == d.start && packs[i].allocLen + d.allocLen <= Csum.INT_MAX
    requires l == Layer(hdrs[i], packs[i].Contents(), packs[i].modified, l.priv, rand)
    requires |l.bytes| >= Smallest(l.kind) && !IsTransport(l.kind) && l.kind != 'e'
    requires l.kind == 'w' && Wesp.NeedsEsp(l.bytes, l.modified) ==> i + 1 < |packs| && packs[i + 1].priv.EspPrivate?
    modifies buf
    ensures buf[..] == Poke(old(buf[..]), packs[i].start,
      FinishedPlain(l, CharAt(hdrs, i + 1), CharAt(hdrs, i + 2), CharAt(hdrs, Inner(hdrs, i, "i6")),
                    if i + 1 < |packs| then packs[i + 1].priv else NoPrivate, old(d.Contents())))
  {
    hide Poke, Inner, CharAt, Has;
    hide Ipv4.Finalized, Ipv6.Finalized, Hop.Finalized, Chain.Finalized, Gre.Finalized, Wesp.Finalized, Sctp.Finalized;
    var pack, kind := packs[i], hdrs[i];
    var ok;
    match kind {
      case 'i' => ok := Ipv4.Finalize(hdrs, i, d, pack, rand);
      case '6' => ok := Ipv6.Finalize(hdrs, i, d, pack);
      case 'H' => ok := Hop.Finalize(hdrs, i, pack);
      case 'd' => ok := Hop.Finalize(hdrs, i, pack);
      case 'a' => ok := Chain.Finalize(kind, hdrs, i, pack);
      case 'F' => ok := Chain.Finalize(kind, hdrs, i, pack);
      case 'o' => ok := Chain.Finalize(kind, hdrs, i, pack);
      case 'g' => ok := Gre.Finalize(hdrs, i, d, pack);
      case 'w' => ok := Wesp.Finalize(hdrs, packs, i, pack);
      case 's' => ok := Sctp.Finalize(pack);
      case _ => PokeSame(buf[..], pack.start, pack.allocLen);
    }
  }

  lemma RoomFor(crypto: Esp.Crypto, ls: seq<Layer>, payload: seq<byte>, i: nat, s: seq<byte>)
    requires Sound(crypto, ls) && i < |ls| && Laid(crypto, ls, payload, i + 1, s)
    ensures Offset(ls, i) + |ls[i].bytes| + |Nest(crypto, ls, payload, i + 1)| <= |s|
  {
    hide Sound, Nest;
  }

  function PlainHeader(crypto: Esp.Crypto, ls: seq<Layer>, i: nat, inside: seq<byte>): (h: seq<byte>)
    requires Sound(crypto, ls) && i < |ls|
    ensures |h| == |ls[i].bytes|
  {
    assert LayerOk(crypto, ls[i]);
    FinishedPlain(Seen(crypto, ls, i, i + 1), CharAt(Kinds(ls), i + 1), CharAt(Kinds(ls), i + 2), InnerIp(crypto, ls, i),
                  WrappedPrivate(ls, i), inside)
  }

  lemma PlainWraps(crypto: Esp.Crypto, ls: seq<Layer>, i: nat, inside: seq<byte>)
    requires Sound(crypto, ls) && i < |ls| && '\0' !in Kinds(ls)
    requires !IsTransport(ls[i].kind) && ls[i].kind != 'e'
    ensures Wrap(crypto, ls, i, inside) == PlainHeader(crypto, ls, i, inside) + inside
    ensures |PlainHeader(crypto, ls, i, inside)| == |ls[i].bytes|
    ensures PlainHeader(crypto, ls, i, inside)
      == FinishedPlain(Seen(crypto, ls, i, i + 1), CharAt(Kinds(ls), i + 1), CharAt(Kinds(ls), i + 2),
                       CharAt(Kinds(ls), Inner(Kinds(ls), i, "i6")), WrappedPrivate(ls, i), inside)
  {
    hide FinishedPlain, Seen, CharAt;
    assert LayerOk(crypto, ls[i]);
  }

  lemma PlainNeeds(crypto: Esp.Crypto, ls: seq<Layer>, i: nat)
    requires Sound(crypto, ls) && i < |ls|
    ensures var l := Seen(crypto, ls, i, i + 1);
      && |l.bytes| >= Smallest(l.kind)
      && (l.kind == 'w' && Wesp.NeedsEsp(l.bytes, l.modified) ==> i + 1 < |ls| && WrappedPrivate(ls, i).EspPrivate?)
  {
    hide Seen, Wesp.NeedsEsp;
    assert LayerOk(crypto, ls[i]) && WrapsEsp(ls, i);
    if ls[i].kind != 'i' {
      SeenUnclaimed(crypto, ls, i, i + 1);
    }
  }

  method FinalizePlain(crypto: Esp.Crypto, ghost ls: seq<Layer>, ghost payload: seq<byte>, hdrs: string, i: nat,
                       packs: seq<SendipData>, buf: array<byte>, d: SendipData, rand: nat)
    requires Sound(crypto, ls) && i < |ls| && hdrs == Kinds(ls) && rand == ls[i].rand
    requires Ready(crypto, ls, payload, i + 1, packs, buf, d)
    requires !IsTransport(ls[i].kind) && ls[i].kind != 'e'
    modifies buf
    ensures Laid(crypto, ls, payload, i, buf[..])
    ensures |Nest(crypto, ls, payload, i)| == |ls[i].bytes| + |Nest(crypto, ls, payload, i + 1)|
  {
    hide *;
    ghost var s, inside := buf[..], Nest(crypto, ls, payload, i + 1);
    ghost var l, h := Seen(crypto, ls, i, i + 1), PlainHeader(crypto, ls, i, inside);
    Adjacent(crypto, ls, payload, i, packs, buf, d);
    WrappedPart(crypto, ls, payload, i, packs, buf, d);
    KindBounds(crypto, ls, i);
    PlainNeeds(crypto, ls, i);
    RunPlain(hdrs, i, packs, buf, d, rand, l);
    PlainWraps(crypto, ls, i, inside);
    RoomFor(crypto, ls, payload, i, s);
    assert buf[..] == Poke(s, Offset(ls, i), h);
    StepPlain(crypto, ls, payload, i, s, h);
    NestStep(crypto, ls, payload, i);
  }

  /** Calls the finalizer of a transport header. */
  method RunTransport(hdrs: string, i: nat, packs: seq<SendipData>, buf: array<byte>, d: SendipData, rand: nat, ghost l: Layer)
    requires i < |packs| && Transport.Enclosed(hdrs, packs, i, d, packs[i]) && packs[i].data == buf
    requires l == Layer(hdrs[i], packs[i].Contents(), packs[i].modified, l.priv, rand)
    requires |l.bytes| >= Smallest(l.kind) && IsTransport(l.kind)
    modifies buf, Transport.Enclosing(hdrs, packs, i)`modified
    ensures var ip, kind := Transport.Enclosing(hdrs, packs, i), hdrs[Outer(hdrs, i, "i6")];
      var flags := old(Transport.Enclosing(hdrs, packs, i).modified);
      var before := Transport.ClaimedBuffer(kind, flags, old(buf[..]), ip.start, TransportProtocol(l.kind));
      && ip.modified == Transport.ClaimedFlags(kind, flags)
      && buf[..] == Poke(before, packs[i].start,
           FinishedTransport(l, kind, before[ip.start..ip.start + ip.allocLen], old(d.Contents())))
  {
    hide Poke, Tcp.Finalized, Udp.Finalized, Icmp.Finalized, Transport.ClaimedBuffer, Transport.ClaimedFlags, Outer;
    var ok;
    match hdrs[i] {
      case 't' => ok := Tcp.Finalize(hdrs, packs, i, d, packs[i], rand);
      case 'u' => ok := Udp.Finalize(hdrs, packs, i, d, packs[i]);
      case _ => ok := Icmp.Finalize(hdrs, packs, i, d, packs[i]);
    }
  }

  /** The IP header around a transport header, as the transport finalizer finds it. */
  lemma EnclosingReady(crypto: Esp.Crypto, ls: seq<Layer>, payload: seq<byte>, i: nat, hdrs: string,
                       packs: seq<SendipData>, buf: array<byte>, d: SendipData, o: nat)
    requires Sound(crypto, ls) && i < |ls| && Ready(crypto, ls, payload, i + 1, packs, buf, d)
    requires hdrs == Kinds(ls) && ls[i].kind !in "i6" && o == OuterIp(ls, i)
    ensures Transport.Enclosed(hdrs, packs, i, d, packs[i]) && o == Outer(hdrs, i, "i6") < i && hdrs[o] == ls[o].kind
    ensures packs[o].start == Offset(ls, o) && packs[o].allocLen == |ls[o].bytes|
    ensures packs[o].modified == Seen(crypto, ls, o, i + 1).modified
  {
    Adjacent(crypto, ls, payload, i, packs, buf, d);
    IpHeaderRoom(crypto, ls, i);
    OffsetsGrow(ls, o, i);
  }

  lemma TransportForm(crypto: Esp.Crypto, ls: seq<Layer>, i: nat, inside: seq<byte>, o: nat)
    requires Sound(crypto, ls) && i < |ls| && IsTransport(ls[i].kind) && o == OuterIp(ls, i)
    ensures o < i && |Seen(crypto, ls, o, i).bytes| >= (if ls[o].kind == 'i' then 20 else 40)
    ensures |ls[i].bytes| >= Smallest(ls[i].kind)
    ensures TransportHeader(crypto, ls, i, inside)
      == FinishedTransport(ls[i], ls[o].kind, Seen(crypto, ls, o, i).bytes, inside)
  {
    hide Sound, Seen, OuterIp, FinishedTransport, IsTransport;
    TransportIsInside(ls, i);
    IpHeaderRoom(crypto, ls, i);
  }

  method TransportInPlace(crypto: Esp.Crypto, ghost ls: seq<Layer>, ghost payload: seq<byte>, hdrs: string, i: nat,
                          packs: seq<SendipData>, ghost ip: SendipData, buf: array<byte>, d: SendipData, rand: nat)
    requires Sound(crypto, ls) && i < |ls| && hdrs == Kinds(ls) && rand == ls[i].rand
    requires Ready(crypto, ls, payload, i + 1, packs, buf, d)
    requires IsTransport(ls[i].kind) && 0 <= OuterIp(ls, i) < i && |packs| == |ls| && ip == packs[OuterIp(ls, i)]
    modifies buf, ip`modified
    ensures Laid(crypto, ls, payload, i, buf[..])
    ensures ip.modified == Seen(crypto, ls, OuterIp(ls, i), i).modified
    ensures |Nest(crypto, ls, payload, i)| == |ls[i].bytes| + |Nest(crypto, ls, payload, i + 1)|
  {
    hide *;
    ghost var s, inside, o := buf[..], Nest(crypto, ls, payload, i + 1), OuterIp(ls, i);
    TransportIsInside(ls, i);
    Adjacent(crypto, ls, payload, i, packs, buf, d);
    EnclosingReady(crypto, ls, payload, i, hdrs, packs, buf, d, o);
    EnclosingIs(hdrs, packs, i, o);
    SeenUnclaimed(crypto, ls, i, i + 1);
    StepTransport(crypto, ls, payload, i, s, o, ip.modified);
    TransportForm(crypto, ls, i, inside, o);
    WrapsTransport(crypto, ls, i, inside);
    NestStep(crypto, ls, payload, i);
    SeenStep(crypto, ls, i, o);
    RunTransport(hdrs, i, packs, buf, d, rand, ls[i]);
  }

  lemma EnclosingIs(hdrs: string, packs: seq<SendipData>, i: nat, o: nat)
    requires i < |hdrs| == |packs| && o == Outer(hdrs, i, "i6")
    ensures Transport.Enclosing(hdrs, packs, i) == packs[o]
  {
  }

  method FinalizeTransport(crypto: Esp.Crypto, ghost ls: seq<Layer>, ghost payload: seq<byte>, hdrs: string, i: nat,
                           packs: seq<SendipData>, buf: array<byte>, d: SendipData, rand: nat)
    requires Sound(crypto, ls) && i < |ls| && hdrs == Kinds(ls) && rand == ls[i].rand
    requires Ready(crypto, ls, payload, i + 1, packs, buf, d)
    requires IsTransport(ls[i].kind)
    modifies buf, packs
    ensures Laid(crypto, ls, payload, i, buf[..])
    ensures Placed(ls, packs, buf) && Waiting(crypto, ls, packs, i)
    ensures packs[i].allocLen == |ls[i].bytes|
    ensures |Nest(crypto, ls, payload, i)| == |ls[i].bytes| + |Nest(crypto, ls, payload, i + 1)|
  {
    hide Sound, Seen, Nest, Laid, Offset, OuterIp, IsTransport, Kinds, Transport.ClaimedFlags, Transport.ClaimedBytes;
    ghost var o := OuterIp(ls, i);
    TransportIsInside(ls, i);
    IpHeaderRoom(crypto, ls, i);
    Adjacent(crypto, ls, payload, i, packs, buf, d);
    ghost var ip := packs[o];
    TransportInPlace(crypto, ls, payload, hdrs, i, packs, ip, buf, d, rand);
    forall j | 0 <= j < i
      ensures packs[j].allocLen == |ls[j].bytes| && packs[j].modified == Seen(crypto, ls, j, i).modified
    {
      SeenStep(crypto, ls, i, j);
      assert j != o ==> packs[j] != ip;
    }
  }

  lemma EspNeeds(crypto: Esp.Crypto, ls: seq<Layer>, i: nat, inside: seq<byte>)
    requires Sound(crypto, ls) && i < |ls| && ls[i].kind == 'e'
    ensures Esp.Fits(ls[i].bytes, ls[i].modified, ls[i].priv) && (crypto.auth ==> ls[i].priv.icvlen > 0)
    ensures Wrap(crypto, ls, i, inside)
      == Esp.Encapsulated(crypto, ls[i].bytes, ls[i].modified, ls[i].priv, CharAt(Kinds(ls), i + 1), inside)
    ensures !IsTransport(ls[i].kind)
  {
    hide Esp.Encapsulated, Esp.Fits;
    assert LayerOk(crypto, ls[i]);
  }

  method FinalizeEsp(crypto: Esp.Crypto, ghost ls: seq<Layer>, ghost payload: seq<byte>, hdrs: string, i: nat,
                     packs: seq<SendipData>, pack: SendipData, buf: array<byte>, d: SendipData)
    requires Sound(crypto, ls) && i < |ls| && hdrs == Kinds(ls)
    requires Ready(crypto, ls, payload, i + 1, packs, buf, d) && pack == packs[i]
    requires ls[i].kind == 'e'
    modifies buf, pack`allocLen, d`start, d`allocLen
    ensures Laid(crypto, ls, payload, i, buf[..])
    ensures pack.allocLen == 8 && d.start == Offset(ls, i) + 8
    ensures d.allocLen + 8 == |Nest(crypto, ls, payload, i)|
  {
    hide Sound, Seen, Laid, Poke, Offset, Kinds, Wrap, Esp.Encapsulated, Esp.Fits, IsTransport, CharAt;
    ghost var s, inside := buf[..], Nest(crypto, ls, payload, i + 1);
    Adjacent(crypto, ls, payload, i, packs, buf, d);
    SeenUnclaimed(crypto, ls, i, i + 1);
    EspNeeds(crypto, ls, i, inside);
    ghost var packet := Wrap(crypto, ls, i, inside);
    RoomFor(crypto, ls, payload, i, s);
    StepPlain(crypto, ls, payload, i, s, packet);
    var ok := Esp.Finalize(crypto, hdrs, i, d, pack);
  }

  /** The module's finalizer. */
  method RunFinalizer(crypto: Esp.Crypto, ghost ls: seq<Layer>, ghost payload: seq<byte>, hdrs: string, i: nat,
                      packs: seq<SendipData>, buf: array<byte>, d: SendipData, rand: nat)
    requires Sound(crypto, ls) && i < |ls| && hdrs == Kinds(ls) && rand == ls[i].rand
    requires Ready(crypto, ls, payload, i + 1, packs, buf, d)
    modifies buf, packs, d
    ensures Finished(crypto, ls, payload, i, packs, buf, d)
  {
    hide Sound, Laid, Nest, Seen, IsTransport, Offset;
    var kind := hdrs[i];
    Adjacent(crypto, ls, payload, i, packs, buf, d);
    SeenOutside(crypto, ls, i);
    if IsTransport(kind) {
      FinalizeTransport(crypto, ls, payload, hdrs, i, packs, buf, d, rand);
    } else if kind == 'e' {
      FinalizeEsp(crypto, ls, payload, hdrs, i, packs, packs[i], buf, d);
    } else {
      FinalizePlain(crypto, ls, payload, hdrs, i, packs, buf, d, rand);
    }
  }

  /** One round of the finalize loop: the finalizer, and the window grown by the header. */
  method FinalizeOne(crypto: Esp.Crypto, ghost ls: seq<Layer>, ghost payload: seq<byte>, hdrs: string, i: nat,
                     packs: seq<SendipData>, buf: array<byte>, d: SendipData, rand: nat)
    requires Sound(crypto, ls) && i < |ls| && hdrs == Kinds(ls) && rand == ls[i].rand
    requires Ready(crypto, ls, payload, i + 1, packs, buf, d)
    modifies buf, packs, d
    ensures Ready(crypto, ls, payload, i, packs, buf, d)
  {
    hide Sound, Laid, Nest, Seen, Offset;
    RunFinalizer(crypto, ls, payload, hdrs, i, packs, buf, d, rand);
    d.start := d.start - packs[i].allocLen;
    d.allocLen := d.allocLen + packs[i].allocLen;
  }

  lemma SeenOutside(crypto: Esp.Crypto, ls: seq<Layer>, i: nat)
    requires Sound(crypto, ls) && i < |ls|
    ensures !IsTransport(ls[i].kind) ==> forall j :: 0 <= j < i ==> Seen(crypto, ls, j, i) == Seen(crypto, ls, j, i + 1)
  {
    hide Sound;
  }

  /** The whole loop, from the innermost header outwards. */
  method FinalizeAll(crypto: Esp.Crypto, ghost ls: seq<Layer>, ghost payload: seq<byte>, hdrs: string,
                     packs: seq<SendipData>, buf: array<byte>, d: SendipData, rands: seq<nat>)
    requires Sound(crypto, ls) && hdrs == Kinds(ls)
    requires |rands| == |ls| && forall k :: 0 <= k < |ls| ==> rands[k] == ls[k].rand
    requires Ready(crypto, ls, payload, |ls|, packs, buf, d)
    modifies buf, packs, d
    ensures Ready(crypto, ls, payload, 0, packs, buf, d)
  {
    hide Sound, Laid, Nest, Placed, Waiting;
    for i := |rands| downto 0
      invariant i <= |ls|
      invariant Ready(crypto, ls, payload, i, packs, buf, d)
    {
      FinalizeOne(crypto, ls, payload, hdrs, i, packs, buf, d, rands[i]);
    }
  }

  // ----- putting the packet together

  /** The module objects, each with a buffer of its own, hold the layers ls. */
  ghost predicate Holds(ls: seq<Layer>, packs: seq<SendipData>)
    reads packs, set p | p in packs :: p.data
  {
    && |packs| == |ls|
    && (forall j, k :: 0 <= j < k < |packs| ==> packs[j] != packs[k])
    && forall j :: 0 <= j < |packs| ==> HoldsOne(ls[j], packs[j])
  }

  ghost predicate HoldsOne(l: Layer, p: SendipData)
    reads p, p.data
  {
    p.Within() && p.Contents() == l.bytes && p.allocLen == |l.bytes| && p.modified == l.modified && p.priv == l.priv
  }

  /** The first k headers one behind the other. */
  function Joined(ls: seq<Layer>, k: nat): (r: seq<byte>)
    requires k <= |ls|
    ensures |r| == Offset(ls, k)
  {
    if k == 0 then [] else Joined(ls, k - 1) + ls[k - 1].bytes
  }

  lemma {:induction false} JoinedAt(ls: seq<Layer>, k: nat, j: nat)
    requires j < k <= |ls|
    ensures Offset(ls, j) + |ls[j].bytes| <= Offset(ls, k)
    ensures Joined(ls, k)[Offset(ls, j)..Offset(ls, j) + |ls[j].bytes|] == ls[j].bytes
    decreases k
  {
    if j + 1 < k {
      JoinedAt(ls, k - 1, j);
      var from, to, n := Offset(ls, j), Offset(ls, j) + |ls[j].bytes|, Offset(ls, k - 1);
      PartsOfSum(Joined(ls, k - 1), ls[k - 1].bytes);
      assert Joined(ls, k - 1)[..n] == Joined(ls, k - 1);
      SliceOfPrefix(Joined(ls, k), Joined(ls, k - 1), n, from, to);
    }
  }

  /** Header j has been repointed to its place in the packet. */
  ghost predicate Moved(ls: seq<Layer>, j: nat, p: SendipData, packet: array<byte>)
    requires j < |ls|
    reads p
  {
    && p.data == packet && p.start == Offset(ls, j) && p.allocLen == |ls[j].bytes|
    && p.modified == ls[j].modified && p.priv == ls[j].priv
  }

  method TotalLength(ghost ls: seq<Layer>, packs: seq<SendipData>) returns (total: nat)
    requires Holds(ls, packs)
    ensures total == Offset(ls, |ls|)
  {
    total := 0;
    for k := 0 to |packs|
      invariant total == Offset(ls, k)
    {
      assert HoldsOne(ls[k], packs[k]);
      total := total + packs[k].allocLen;
    }
  }

  /** Copies header k behind the ones already copied. */
  method CopyHeader(ghost ls: seq<Layer>, ghost k: nat, pack: SendipData, packet: array<byte>, i: nat)
    requires k < |ls| && HoldsOne(ls[k], pack) && pack.data != packet
    requires i == Offset(ls, k) && i + |ls[k].bytes| <= packet.Length
    requires packet[..i] == Joined(ls, k)
    modifies packet, pack`data, pack`start
    ensures Moved(ls, k, pack, packet)
    ensures packet[..i + |ls[k].bytes|] == Joined(ls, k + 1)
  {
    Put(packet, i, pack.data[pack.start..pack.start + pack.allocLen]);
    pack.data, pack.start := packet, i;
  }

  method CopyHeaders(ghost ls: seq<Layer>, packs: seq<SendipData>, packet: array<byte>)
    requires Holds(ls, packs) && Offset(ls, |ls|) <= packet.Length
    requires forall p :: p in packs ==> p.data != packet
    modifies packs, packet
    ensures forall j :: 0 <= j < |packs| ==> Moved(ls, j, packs[j], packet)
    ensures packet[..Offset(ls, |ls|)] == Joined(ls, |ls|)
  {
    hide Joined, Offset;
    var i := 0;
    NothingJoined(ls);
    for k := 0 to |packs|
      invariant i == Offset(ls, k) <= packet.Length && packet[..i] == Joined(ls, k)
      invariant forall j :: 0 <= j < k ==> Moved(ls, j, packs[j], packet)
      invariant forall j :: k <= j < |packs| ==> HoldsOne(ls[j], packs[j]) && packs[j].data != packet
    {
      OffsetsGrow(ls, k, |ls|);
      OffsetStep(ls, k);
      var n := packs[k].allocLen;
      CopyHeader(ls, k, packs[k], packet, i);
      i := i + n;
    }
  }

  lemma NothingJoined(ls: seq<Layer>)
    ensures Offset(ls, 0) == 0 && Joined(ls, 0) == []
  {
  }

  lemma OffsetStep(ls: seq<Layer>, k: nat)
    requires k < |ls|
    ensures Offset(ls, k + 1) == Offset(ls, k) + |ls[k].bytes|
  {
  }

  lemma JoinedIsLaid(crypto: Esp.Crypto, ls: seq<Layer>, payload: seq<byte>)
    requires Sound(crypto, ls)
    ensures Laid(crypto, ls, payload, |ls|, Joined(ls, |ls|) + payload)
  {
    hide Sound, Joined, Offset;
    var s := Joined(ls, |ls|) + payload;
    forall j | 0 <= j < |ls| ensures HeaderLies(crypto, ls, |ls|, s, j) {
      var from, to := Offset(ls, j), Offset(ls, j) + |ls[j].bytes|;
      JoinedAt(ls, |ls|, j);
      assert s[from..to] == Joined(ls, |ls|)[from..to];
    }
  }

  /** The part of main that sticks all the bits together. */
  method Assemble(crypto: Esp.Crypto, ghost ls: seq<Layer>, packs: seq<SendipData>, payload: seq<byte>)
    returns (packet: array<byte>, d: SendipData)
    requires Sound(crypto, ls) && Holds(ls, packs)
    requires Offset(ls, |ls|) + |payload| + 40 <= Csum.INT_MAX
    modifies packs
    ensures fresh(packet) && fresh(d)
    ensures packet.Length == Offset(ls, |ls|) + |payload|
    ensures Ready(crypto, ls, payload, |ls|, packs, packet, d)
  {
    hide Sound, Laid, Offset, Joined, Ready;
    var total := TotalLength(ls, packs);
    packet := new byte[total + |payload|];
    CopyHeaders(ls, packs, packet);
    Put(packet, total, payload);
    assert packet[..] == Joined(ls, |ls|) + payload;
    d := new SendipData(packet, packet.Length - |payload|, |payload|);
    JoinedIsLaid(crypto, ls, payload);
    assert forall j :: 0 <= j < |packs| ==> Moved(ls, j, packs[j], packet);
    StartsReady(crypto, ls, payload, packs, packet, d);
  }

  lemma StartsReady(crypto: Esp.Crypto, ls: seq<Layer>, payload: seq<byte>, packs: seq<SendipData>, packet: array<byte>, d: SendipData)
    requires Sound(crypto, ls) && |packs| == |ls|
    requires forall j, k :: 0 <= j < k < |packs| ==> packs[j] != packs[k]
    requires forall j :: 0 <= j < |packs| ==> Moved(ls, j, packs[j], packet)
    requires d !in packs && d.data == packet && d.start == Offset(ls, |ls|) && d.allocLen == |payload|
    requires Laid(crypto, ls, payload, |ls|, packet[..])
    requires Offset(ls, |ls|) + |payload| + 40 <= Csum.INT_MAX
    ensures Ready(crypto, ls, payload, |ls|, packs, packet, d)
  {
    hide Sound, Laid, Offset;
    assert forall j :: 0 <= j < |packs| ==> Moved(ls, j, packs[j], packet);
  }

  /** Assembly and finalization: the bytes sent are the headers nested around the data, for every
  list of headers and every payload. */
  method BuildPacket(crypto: Esp.Crypto, ghost ls: seq<Layer>, hdrs: string, packs: seq<SendipData>,
                     payload: seq<byte>, rands: seq<nat>)
    returns (packet: array<byte>, allocLen: nat)
    requires Sound(crypto, ls) && Holds(ls, packs) && hdrs == Kinds(ls)
    requires |rands| == |ls| && forall k :: 0 <= k < |ls| ==> rands[k] == ls[k].rand
    requires Offset(ls, |ls|) + |payload| + 40 <= Csum.INT_MAX
    modifies packs
    ensures fresh(packet) && allocLen <= packet.Length == Offset(ls, |ls|) + |payload|
    ensures packet[..allocLen] == Nest(crypto, ls, payload, 0)
  {
    hide Sound, Nest;
    var d;
    packet, d := Assemble(crypto, ls, packs, payload);
    FinalizeAll(crypto, ls, payload, hdrs, packs, packet, d, rands);
    NestFits(crypto, ls, payload, 0);
    allocLen := packet.Length;
    if d.allocLen < allocLen {
      allocLen := d.allocLen;
    }
    assert packet[..][0..allocLen] == packet[..allocLen];
  }
}
