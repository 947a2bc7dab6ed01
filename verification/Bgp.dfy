/** bgp.c: one BGP message, built option by option with its length fields patched in place, and the
receiver that takes it apart again by those lengths.

On a little-endian host PUTSHORT stores, and GETSHORT reads, the low byte first. The options that
give a length outright (-bl, -bul, -bus) and the path attributes (-bua) are left out.
*/
module Bgp {
  import opened Bytes
  import opened Wrappers

  const BGP_BUFLEN: nat := 1400

  /** Marker, length and type. */
  const HEADER: nat := 19

  datatype Part = Header | Open | OpenOpt | UpdateWdrLen | UpdateWdr | UpdateAttrLen | UpdateAttr | UpdateNlri | Notfn

  /** PUTSHORT */
  method PutShort(data: array<byte>, at: nat, s: nat)
    requires at + 2 <= data.Length && s < 0x1_0000
    modifies data
    ensures data[..] == Poke(old(data[..]), at, Le16(s))
  {
    Put(data, at, Le16(s));
  }

  /** GETSHORT */
  function GetShort(s: seq<byte>, at: nat): nat
    requires at + 2 <= |s|
  {
    Word(s[at], s[at + 1])
  }

  // ----- prefixes: RFC 4271, section 4.3

  /** A length in bits and the bytes that follow it. */
  datatype Prefix = Prefix(length: byte, span: seq<byte>)

  function SpanOf(length: nat): nat
  {
    (length + 7) / 8
  }

  predicate Proper(p: Prefix)
  {
    p.length <= 32 && |p.span| == SpanOf(p.length)
  }

  function Encode(p: Prefix): seq<byte>
  {
    [p.length] + p.span
  }

  function EncodeAll(ps: seq<Prefix>): seq<byte>
  {
    if |ps| == 0 then [] else EncodeAll(ps[..|ps| - 1]) + Encode(ps[|ps| - 1])
  }

  lemma EncodeAllAppends(ps: seq<Prefix>, p: Prefix)
    ensures EncodeAll(ps + [p]) == EncodeAll(ps) + Encode(p)
  {
    assert (ps + [p])[..|ps + [p]| - 1] == ps;
  }

  // ----- a receiver with the message format of RFC 4271, sections 4.1 and 4.3, that reads lengths
  // low byte first, as GETSHORT does

  function DecodePrefixes(b: seq<byte>): Maybe<seq<Prefix>>
  {
    if |b| == 0 then Some([])
    else if b[0] > 32 || |b| < 1 + SpanOf(b[0]) then None
    else Joined(Prefix(b[0], b[1..1 + SpanOf(b[0])]), DecodePrefixes(b[1 + SpanOf(b[0])..]))
  }

  function Joined(p: Prefix, rest: Maybe<seq<Prefix>>): Maybe<seq<Prefix>>
  {
    if rest.None? then None else Some([p] + rest.value)
  }

  datatype Received = Malformed | Update(withdrawn: seq<Prefix>, attributes: seq<byte>, nlri: seq<Prefix>)

  /** A length read with the low byte first, or with the high byte first. */
  function Length(s: seq<byte>, at: nat, network: bool): nat
    requires at + 2 <= |s|
  {
    if network then Word(s[at + 1], s[at]) else GetShort(s, at)
  }

  function DecodeUpdate(m: seq<byte>): Received
  {
    Decode(m, false)
  }

  /** Takes an UPDATE message apart by its three length fields. */
  function Decode(m: seq<byte>, network: bool): Received
  {
    if |m| < HEADER + 4 || Length(m, 16, network) != |m| || m[18] != 2 then Malformed
    else
      var wlen := Length(m, HEADER, network);
      if HEADER + 4 + wlen > |m| then Malformed
      else
        var alen := Length(m, HEADER + 2 + wlen, network);
        if HEADER + 4 + wlen + alen > |m| then Malformed
        else
          var w := DecodePrefixes(m[HEADER + 2..HEADER + 2 + wlen]);
          var n := DecodePrefixes(m[HEADER + 4 + wlen + alen..]);
          if w.None? || n.None? then Malformed
          else Update(w.value, m[HEADER + 4 + wlen..HEADER + 4 + wlen + alen], n.value)
  }

  lemma {:induction false} DecodesAll(ps: seq<Prefix>, rest: seq<byte>, more: seq<Prefix>)
    requires forall k :: 0 <= k < |ps| ==> Proper(ps[k])
    requires DecodePrefixes(rest) == Some(more)
    ensures DecodePrefixes(EncodeAll(ps) + rest) == Some(ps + more)
  {
    hide Proper, DecodePrefixes, Encode;
    if |ps| == 0 {
      assert EncodeAll(ps) + rest == rest && ps + more == more;
    } else {
      var front, last := ps[..|ps| - 1], ps[|ps| - 1];
      DecodesFirst(last, rest);
      DecodesAll(front, Encode(last) + rest, [last] + more);
      assert EncodeAll(ps) + rest == EncodeAll(front) + (Encode(last) + rest);
      assert ps + more == front + ([last] + more);
    }
  }

  lemma DecodesFirst(p: Prefix, rest: seq<byte>)
    requires Proper(p)
    ensures DecodePrefixes(Encode(p) + rest) == Joined(p, DecodePrefixes(rest))
  {
    var b := Encode(p) + rest;
    assert b[1..1 + |p.span|] == p.span && b[1 + |p.span|..] == rest;
  }

  // ----- what the builder keeps

  /** The part of the message behind the header. */
  predicate Shape(part: Part, body: seq<byte>, withdrawn: seq<Prefix>, nlri: seq<Prefix>)
  {
    match part
    case Header => body == [] && withdrawn == [] && nlri == []
    case Open => |body| >= 10 && withdrawn == [] && nlri == []
    case OpenOpt => |body| >= 10 && withdrawn == [] && nlri == []
    case UpdateWdr => body == WithdrawnPart(withdrawn) && nlri == []
    case UpdateNlri => body == WithdrawnPart(withdrawn) + Le16(0) + EncodeAll(nlri)
    case Notfn => |body| >= 2 && withdrawn == [] && nlri == []
    case _ => false
  }

  function WithdrawnPart(withdrawn: seq<Prefix>): (r: seq<byte>)
    ensures |r| >= 2
  {
    Le16(|EncodeAll(withdrawn)|) + EncodeAll(withdrawn)
  }

  predicate Holds(m: seq<byte>, part: Part, withdrawn: seq<Prefix>, nlri: seq<Prefix>)
  {
    && HEADER <= |m| <= BGP_BUFLEN && GetShort(m, 16) == |m|
    && Shape(part, m[HEADER..], withdrawn, nlri)
  }

  /** The receiver of an UPDATE message gets exactly the withdrawn routes and the reachable ones, in
  their order, if the message went on to the latter; one that stops after the withdrawn routes has
  no attribute length and is malformed. */
  lemma DecodesIff(m: seq<byte>, part: Part, withdrawn: seq<Prefix>, nlri: seq<Prefix>)
    requires Holds(m, part, withdrawn, nlri) && m[18] == 2 && part in {UpdateWdr, UpdateNlri}
    requires forall k :: 0 <= k < |withdrawn| ==> Proper(withdrawn[k])
    requires forall k :: 0 <= k < |nlri| ==> Proper(nlri[k])
    ensures part == UpdateNlri ==> DecodeUpdate(m) == Update(withdrawn, [], nlri)
    ensures part == UpdateWdr ==> DecodeUpdate(m) == Malformed
  {
    hide Proper, DecodePrefixes, EncodeAll;
    var w, n := EncodeAll(withdrawn), EncodeAll(nlri);
    var body := m[HEADER..];
    assert body[0] == m[HEADER] && body[1] == m[HEADER + 1];
    LeWordOf(|w|);
    if part == UpdateNlri {
      var at := HEADER + 2 + |w|;
      var front := Le16(|w|) + w + Le16(0);
      PartsOfSum(front, n);
      PartsOfSum(Le16(|w|) + w, Le16(0));
      PartsOfSum(Le16(|w|), w);
      SliceOfSuffix(m, HEADER, 4 + |w|, |m| - HEADER);
      SliceOfSuffix(m, HEADER, 2, 2 + |w|);
      SliceOfSlice(body, 0, 2 + |w|, 2, 2 + |w|);
      assert front[..2 + |w|] == Le16(|w|) + w && body[..4 + |w|] == front;
      assert body[..2 + |w|] == Le16(|w|) + w by {
        SliceOfSlice(body, 0, 4 + |w|, 0, 2 + |w|);
      }
      assert body[2..2 + |w|] == w && body[4 + |w|..] == n;
      assert m[at] == body[2 + |w|] == front[2 + |w|] == 0 && m[at + 1] == body[3 + |w|] == front[3 + |w|] == 0;
      DecodesEncoded(withdrawn);
      DecodesEncoded(nlri);
    }
  }

  /** Option -bt 2 and one -buw 10.0.0.0/8: the message ends with the withdrawn route. */
  lemma WithdrawnOnlyIsMalformed()
    ensures var m := seq(16, _ => 0xFF) + [23, 0, 2] + [2, 0, 8, 10];
      Holds(m, UpdateWdr, [Prefix(8, [10])], []) && DecodeUpdate(m) == Malformed
  {
    var m: seq<byte>, p := seq(16, _ => 0xFF) + [23, 0, 2] + [2, 0, 8, 10], Prefix(8, [10]);
    assert [] + [p] == [p] && EncodeAll([]) == [];
    EncodeAllAppends([], p);
    assert EncodeAll([p]) == [8, 10];
    PartsOfSum(seq(16, _ => 0xFF) + [23, 0, 2], [2, 0, 8, 10]);
    assert WithdrawnPart([p]) == [2, 0, 8, 10];
    assert Proper([p][0]) by {
      assert SpanOf(8) == 1;
    }
    DecodesIff(m, UpdateWdr, [p], []);
  }

  /** RFC 4271 sends the high byte first: such a receiver finds the right length exactly when both
  bytes of it are the same, that is, when it is a multiple of 257. */
  lemma NetworkOrderIff(m: seq<byte>)
    requires |m| >= HEADER && GetShort(m, 16) == |m|
    ensures Word(m[17], m[16]) == |m| <==> m[16] == m[17]
    ensures m[16] == m[17] <==> |m| % 257 == 0
  {
    var low: int, high: int := m[16], m[17];
    assert |m| == 257 * high + (low - high);
    Multiple(high, low - high);
  }

  lemma {:induction false} EncodeAllBefore(p: Prefix, ps: seq<Prefix>)
    ensures EncodeAll([p] + ps) == Encode(p) + EncodeAll(ps)
    decreases |ps|
  {
    hide Encode;
    var all := [p] + ps;
    if |ps| == 0 {
      assert all == [p] && all[..0] == [];
      assert EncodeAll(all) == EncodeAll(all[..0]) + Encode(p);
    } else {
      var front := ps[..|ps| - 1];
      EncodeAllBefore(p, front);
      assert all[..|all| - 1] == [p] + front && all[|all| - 1] == ps[|ps| - 1];
    }
  }

  /** Prefixes that can be decoded are those that were encoded. */
  lemma {:induction false} DecodedIsEncoded(b: seq<byte>)
    requires DecodePrefixes(b).Some?
    ensures EncodeAll(DecodePrefixes(b).value) == b
    decreases |b|
  {
    hide EncodeAll;
    if |b| == 0 {
      NothingEncoded();
    } else {
      var n := 1 + SpanOf(b[0]);
      DecodedIsEncoded(b[n..]);
      EncodeAllBefore(Prefix(b[0], b[1..n]), DecodePrefixes(b[n..]).value);
      assert [b[0]] + b[1..n] + b[n..] == b;
    }
  }

  lemma NothingEncoded()
    ensures EncodeAll([]) == []
  {
  }

  /** What a receiver has read as lengths when he accepts an UPDATE. */
  lemma LengthsRead(m: seq<byte>, network: bool)
    requires Decode(m, network).Update?
    ensures var u := Decode(m, network);
      var at := HEADER + 2 + |EncodeAll(u.withdrawn)|;
      && |m| >= HEADER + 4 && Length(m, 16, network) == |m| && m[18] == 2
      && Length(m, HEADER, network) == |EncodeAll(u.withdrawn)| && at + 2 <= |m|
      && Length(m, at, network) == |u.attributes|
  {
    hide EncodeAll, DecodePrefixes, Length;
    DecodedIsEncoded(m[HEADER + 2..HEADER + 2 + Length(m, HEADER, network)]);
  }

  lemma BothOrders(m: seq<byte>, at: nat, n: nat)
    requires at + 2 <= |m| && n < 0x1_0000 && (Length(m, at, false) == n || Length(m, at, true) == n)
    ensures Length(m, at, false) == Length(m, at, true) <==> n % 257 == 0
  {
    var low: int, high: int := m[at], m[at + 1];
    if Length(m, at, false) == n {
      assert n == 257 * high + (low - high);
      Multiple(high, low - high);
    } else {
      assert n == 257 * low + (high - low);
      Multiple(low, high - low);
    }
  }

  lemma SameLengthsSameUpdate(m: seq<byte>, at: nat)
    requires |m| >= HEADER + 4 && at == HEADER + 2 + Length(m, HEADER, false) && at + 2 <= |m|
    requires Length(m, 16, false) == Length(m, 16, true)
    requires Length(m, HEADER, false) == Length(m, HEADER, true)
    requires Length(m, at, false) == Length(m, at, true)
    ensures Decode(m, true) == Decode(m, false)
  {
    hide Length, DecodePrefixes;
  }

  /** Whatever the message: a receiver who reads lengths high byte first, as RFC 4271 has it, gets
  the UPDATE that one who reads them low byte first gets exactly when the message, its withdrawn
  routes and its attributes all have lengths that are multiples of 257. */
  lemma NetworkUpdateIff(m: seq<byte>)
    requires Decode(m, false).Update? && |m| < 0x1_0000
    ensures var u := Decode(m, false);
      (Decode(m, true) == u
       <==> |m| % 257 == 0 && |EncodeAll(u.withdrawn)| % 257 == 0 && |u.attributes| % 257 == 0)
  {
    hide Decode, EncodeAll, Length;
    var u := Decode(m, false);
    LengthsRead(m, false);
    var w, a := |EncodeAll(u.withdrawn)|, |u.attributes|;
    if Decode(m, true) == u {
      LengthsRead(m, true);
    }
    LengthsAreWords(m, HEADER, w);
    LengthsAreWords(m, HEADER + 2 + w, a);
    BothOrders(m, 16, |m|);
    BothOrders(m, HEADER, w);
    BothOrders(m, HEADER + 2 + w, a);
    if |m| % 257 == 0 && w % 257 == 0 && a % 257 == 0 {
      SameLengthsSameUpdate(m, HEADER + 2 + w);
    }
  }

  lemma LengthsAreWords(m: seq<byte>, at: nat, n: nat)
    requires at + 2 <= |m| && Length(m, at, false) == n
    ensures n < 0x1_0000
  {
  }

  /** So of the messages built he gets those right whose length and whose withdrawn routes' length
  are multiples of 257; one that stops after the withdrawn routes is malformed for him as well. */
  lemma BuiltForNetworkIff(m: seq<byte>, part: Part, withdrawn: seq<Prefix>, nlri: seq<Prefix>)
    requires Holds(m, part, withdrawn, nlri) && m[18] == 2 && part in {UpdateWdr, UpdateNlri}
    requires forall k :: 0 <= k < |withdrawn| ==> Proper(withdrawn[k])
    requires forall k :: 0 <= k < |nlri| ==> Proper(nlri[k])
    ensures part == UpdateNlri ==>
      (Decode(m, true) == Update(withdrawn, [], nlri) <==> |m| % 257 == 0 && |EncodeAll(withdrawn)| % 257 == 0)
    ensures part == UpdateWdr ==> Decode(m, true) == Malformed
  {
    hide Proper, DecodePrefixes, EncodeAll, Decode;
    if part == UpdateNlri {
      DecodesIff(m, part, withdrawn, nlri);
      NetworkUpdateIff(m);
    } else {
      WithdrawnEnds(m, |EncodeAll(withdrawn)|);
    }
  }

  /** The length of the withdrawn routes, read the other way round, is beyond the message. */
  lemma WithdrawnEnds(m: seq<byte>, w: nat)
    requires |m| == HEADER + 2 + w <= BGP_BUFLEN && GetShort(m, 16) == |m| && m[HEADER..][..2] == Le16(w)
    ensures Decode(m, true) == Malformed
  {
    hide DecodePrefixes, Le16;
    if |m| >= HEADER + 4 {
      NetworkOrderIff(m);
      LeWordOf(w);
      assert m[HEADER] == Le16(w)[0] && m[HEADER + 1] == Le16(w)[1];
      if |m| % 257 == 0 {
        BeyondMessage(|m| / 257, m[HEADER], m[HEADER + 1]);
      }
    }
  }

  lemma BeyondMessage(c: nat, low: byte, high: byte)
    requires c <= 5 && Word(low, high) == 257 * c - HEADER - 2
    ensures Word(high, low) > BGP_BUFLEN
  {
  }

  /** A message with one -bun 10.0.0.0/8 is an UPDATE for one and malformed for the other. */
  lemma AnnouncedIsMisread()
    ensures var m := seq(16, _ => 0xFF) + [25, 0, 2] + [0, 0, 0, 0, 8, 10];
      Decode(m, false) == Update([], [], [Prefix(8, [10])]) && Decode(m, true) == Malformed
  {
    var m: seq<byte>, p := seq(16, _ => 0xFF) + [25, 0, 2] + [0, 0, 0, 0, 8, 10], Prefix(8, [10]);
    assert m[HEADER + 2..HEADER + 2] == [] && m[HEADER + 4..] == [8, 10] && [8, 10][2..] == [] && [8, 10][1..2] == [10];
    assert SpanOf(8) == 1;
    assert DecodePrefixes([8, 10]) == Joined(p, DecodePrefixes([8, 10][2..]));
  }

  /** The message of initialize has 19 bytes and says 4864 in network order. */
  lemma KeepaliveIsMisread()
    ensures var m := seq(16, _ => 0xFF) + [19, 0, 4];
      |m| == GetShort(m, 16) == 19 && Word(m[17], m[16]) == 4864
  {
  }

  lemma Multiple(q: int, r: int)
    requires -257 < r < 257
    ensures (257 * q + r) % 257 == 0 <==> r == 0
  {
  }

  lemma LeWordOf(v: nat)
    requires v < 0x1_0000
    ensures Word(Le16(v)[0], Le16(v)[1]) == v
  {
  }

  lemma DecodesEncoded(ps: seq<Prefix>)
    requires forall k :: 0 <= k < |ps| ==> Proper(ps[k])
    ensures DecodePrefixes(EncodeAll(ps)) == Some(ps)
  {
    hide Proper, EncodeAll;
    DecodesAll(ps, [], []);
    assert EncodeAll(ps) + [] == EncodeAll(ps) && ps + [] == ps;
  }

  // ----- the options

  /** x.x.x.x/n:length as parsed: the address bytes given, the length in bits, the number of bytes
  to send if it was given. */
  datatype NlriArg = NlriArg(addr: seq<byte>, length: byte, bytes: Maybe<byte>)

  datatype Option =
    | Marker(bytes: seq<byte>)
    | Type(kind: byte)
    | OpenMessage(version: byte, asn: word, hold: word, id: seq<byte>, olen: Maybe<byte>)
    | OpenOption(kind: byte, length: Maybe<byte>, value: seq<byte>)
    | Withdraw(nlri: NlriArg)
    | Announce(nlri: NlriArg)
    | Notification(code: byte, subcode: byte, more: seq<byte>)

  /** What parsing the text can give: up to so many numbers; no identifier if its first number is
  invalid. */
  predicate Parsable(o: Option)
  {
    match o
    case Marker(b) => 1 <= |b| <= 16
    case Type(_) => true
    case OpenMessage(_, _, _, id, _) => |id| <= 4
    case OpenOption(_, _, v) => 1 <= |v| <= 0xFF
    case Withdraw(n) => 1 <= |n.addr| <= 4
    case Announce(n) => 1 <= |n.addr| <= 4
    case Notification(_, _, b) => 1 <= |b| <= 0xFFFF
  }

  /** How many bytes an NLRI sends behind its length. */
  function Sent(n: NlriArg): nat
  {
    if n.bytes.Some? then n.bytes.value else SpanOf(n.length)
  }

  function Max(a: nat, b: nat): nat
  {
    if a < b then b else a
  }

  /** How many bytes behind the message an option may write to. */
  function Needs(o: Option): nat
  {
    match o
    case Marker(_) => 0
    case Type(_) => 0
    case OpenMessage(_, _, _, _, _) => 10
    case OpenOption(_, _, v) => 2 + |v|
    case Withdraw(n) => 3 + Max(Sent(n), |n.addr|)
    case Announce(n) => 5 + Max(Sent(n), |n.addr|)
    case Notification(_, _, b) => 2 + |b|
  }

  /** Which option may follow which part. */
  predicate Accepts(part: Part, o: Option)
  {
    match o
    case Marker(_) => true
    case Type(_) => true
    case OpenMessage(_, _, _, id, _) => part == Header && |id| > 0
    case OpenOption(_, _, _) => part in {Open, OpenOpt}
    case Withdraw(_) => part in {Header, UpdateWdrLen, UpdateWdr}
    case Announce(_) => part in {Header, UpdateWdrLen, UpdateWdr, UpdateAttrLen, UpdateAttr, UpdateNlri}
    case Notification(_, _, _) => part == Header
  }

  function NextPart(part: Part, o: Option): Part
  {
    match o
    case Marker(_) => part
    case Type(_) => part
    case OpenMessage(_, _, _, _, _) => Open
    case OpenOption(_, _, _) => OpenOpt
    case Withdraw(_) => UpdateWdr
    case Announce(_) => UpdateNlri
    case Notification(_, _, _) => Notfn
  }

  /** The prefix an argument adds: as many bytes as are to be sent, the given ones first. */
  predicate Adds(p: Prefix, n: NlriArg)
  {
    && p.length == n.length && |p.span| == Sent(n)
    && if |n.addr| <= Sent(n) then p.span[..|n.addr|] == n.addr else p.span == n.addr[..Sent(n)]
  }

  /** Without an explicit byte count, and with enough address bytes, the prefix is the one meant: the
  first bytes of the address, as few as hold the bits of its length. */
  lemma AddsProperPrefix(p: Prefix, n: NlriArg)
    requires Adds(p, n) && n.bytes == None && n.length <= 32 && n.length <= 8 * |n.addr|
    ensures Proper(p) && p.length == n.length && p.span <= n.addr && n.length <= 8 * |p.span| < n.length + 8
  {
  }

  lemma PokedBehind(s: seq<byte>, at: nat, v: seq<byte>)
    requires at + |v| <= |s|
    ensures Poke(s, at, v)[..at] == s[..at]
    ensures Poke(s, at, v)[at..at + |v|] == v
  {
  }

  lemma PokedParts(s: seq<byte>, at: nat, v: seq<byte>, to: nat)
    requires at + |v| <= to <= |s|
    ensures Poke(s, at, v)[at..to] == v + s[at + |v|..to] && Poke(s, at, v)[..at] == s[..at]
  {
    var r := Poke(s, at, v);
    SliceSplits(r, at, at + |v|, to);
    assert forall k :: at + |v| <= k < to ==> r[k] == s[k];
    assert r[at..at + |v|] == v && r[at + |v|..to] == s[at + |v|..to];
  }

  /** One more withdrawn route, and the length in front of all of them. */
  lemma WithdrawnExtended(s: seq<byte>, pd: nat, w: seq<Prefix>, p: Prefix)
    requires HEADER <= pd && pd + |Encode(p)| <= |s|
    requires s[HEADER..pd] == WithdrawnPart(w) && s[pd..pd + |Encode(p)|] == Encode(p)
    ensures pd == HEADER + 2 + |EncodeAll(w)|
    ensures var pe := pd + |Encode(p)|;
      var r := Poke(s, HEADER, Le16(|EncodeAll(w)| + |Encode(p)|));
      r[HEADER..pe] == WithdrawnPart(w + [p]) && r[..HEADER] == s[..HEADER]
  {
    hide EncodeAll, Encode, Le16;
    var pe := pd + |Encode(p)|;
    assert |s[HEADER..pd]| == 2 + |EncodeAll(w)|;
    SliceOfSlice(s, HEADER, pd, 2, pd - HEADER);
    var n := Le16(|EncodeAll(w)| + |Encode(p)|);
    var r := Poke(s, HEADER, n);
    assert s[HEADER + 2..pd] == EncodeAll(w) by {
      PartsOfSum(Le16(|EncodeAll(w)|), EncodeAll(w));
      assert s[HEADER..pd][2..pd - HEADER] == s[HEADER..pd][2..];
    }
    PokedParts(s, HEADER, n, pd);
    PokedParts(s, HEADER, n, pe);
    SliceSplits(s, HEADER + 2, pd, pe);
    EncodeAllAppends(w, p);
  }

  lemma WithdrawnLength(s: seq<byte>, pd: nat, w: seq<Prefix>)
    requires HEADER + 2 <= pd <= |s| && pd < 0x1_0000 && s[HEADER..pd] == WithdrawnPart(w)
    ensures GetShort(s, HEADER) == |EncodeAll(w)| == pd - HEADER - 2
  {
    hide EncodeAll;
    assert |s[HEADER..pd]| == 2 + |EncodeAll(w)|;
    assert s[HEADER] == s[HEADER..pd][0] && s[HEADER + 1] == s[HEADER..pd][1];
    LeWordOf(|EncodeAll(w)|);
  }

  lemma NothingWithdrawn()
    ensures WithdrawnPart([]) == Le16(0)
  {
    assert EncodeAll([]) == [];
    assert Le16(0) + [] == Le16(0);
  }

  lemma AttributesEmpty(s: seq<byte>, pe: nat, w: seq<Prefix>)
    requires HEADER + 2 <= pe <= |s| && s[HEADER..pe - 2] == WithdrawnPart(w) && s[pe - 2..pe] == Le16(0)
    ensures s[HEADER..pe] == WithdrawnPart(w) + Le16(0) + EncodeAll([])
  {
    hide WithdrawnPart, Le16;
    assert EncodeAll([]) == [];
    var t := WithdrawnPart(w) + Le16(0);
    assert s[HEADER..pe] == s[HEADER..pe - 2] + s[pe - 2..pe] == t;
    assert t + [] == t;
  }

  lemma AnnouncedExtended(s: seq<byte>, pd: nat, w: seq<Prefix>, n: seq<Prefix>, p: Prefix)
    requires HEADER <= pd && pd + |Encode(p)| <= |s|
    requires s[HEADER..pd] == WithdrawnPart(w) + Le16(0) + EncodeAll(n) && s[pd..pd + |Encode(p)|] == Encode(p)
    ensures s[HEADER..pd + |Encode(p)|] == WithdrawnPart(w) + Le16(0) + EncodeAll(n + [p])
  {
    hide EncodeAll, Encode, Le16, WithdrawnPart;
    var pe := pd + |Encode(p)|;
    assert s[HEADER..pe] == s[HEADER..pd] + s[pd..pe];
    EncodeAllAppends(n, p);
    assert WithdrawnPart(w) + Le16(0) + EncodeAll(n) + Encode(p) == WithdrawnPart(w) + Le16(0) + (EncodeAll(n) + Encode(p));
  }

  lemma LengthIsPut(s: seq<byte>, n: nat)
    requires |s| >= HEADER && n < 0x1_0000
    ensures var r := Poke(s, 16, Le16(n));
      GetShort(r, 16) == n && r[..16] == s[..16] && r[18..] == s[18..]
  {
  }

  predicate SendsOpen(version: byte, asn: word, hold: word, id: seq<byte>, olen: Maybe<byte>, body: seq<byte>)
  {
    && |id| <= 4 && |body| == 10
    && body[..5] == [version] + Le16(asn) + Le16(hold)
    && body[5..5 + |id|] == id
    && body[9] == if olen.Some? then olen.value else 0
  }

  /** The option goes to the end, and the length of all options, unless given, grows by it. */
  predicate SendsOpenOption(kind: byte, length: Maybe<byte>, value: seq<byte>, given: bool, before: seq<byte>, after: seq<byte>)
  {
    && |before| >= 10
    && after == before[9 := if given then before[9] else (before[9] + (2 + |value|)) % 0x100]
              + ([kind, if length.Some? then length.value else (2 + |value|) % 0x100] + value)
  }

  /** What an option does to the part behind the header; for routes see Shape. */
  predicate Sends(o: Option, given: bool, before: seq<byte>, after: seq<byte>)
  {
    match o
    case Marker(_) => after == before
    case Type(_) => after == before
    case OpenMessage(version, asn, hold, id, olen) => SendsOpen(version, asn, hold, id, olen, after)
    case OpenOption(kind, length, value) => SendsOpenOption(kind, length, value, given, before, after)
    case Withdraw(_) => true
    case Announce(_) => true
    case Notification(code, subcode, more) => after == [code, subcode] + more
  }

  /** What the address bytes, put first, and then the length add to the message. */
  lemma PrefixWritten(was: seq<byte>, put: seq<byte>, now: seq<byte>, pe: nat, n: NlriArg)
    requires pe + 1 + Max(Sent(n), |n.addr|) <= |was| == |put| == |now|
    requires put[..pe + 1] == was[..pe + 1] && put[pe + 1..pe + 1 + |n.addr|] == n.addr
    requires now == put[pe := n.length]
    ensures var p := Prefix(n.length, now[pe + 1..pe + 1 + Sent(n)]);
      Adds(p, n) && now[..pe] == was[..pe] && now[pe..pe + 1 + Sent(n)] == Encode(p)
  {
    hide Sent;
    var m := Sent(n);
    assert forall k :: pe + 1 <= k < |now| ==> now[k] == put[k];
    if |n.addr| <= m {
      SliceOfSlice(now, pe + 1, pe + 1 + m, 0, |n.addr|);
      assert now[pe + 1..pe + 1 + |n.addr|] == put[pe + 1..pe + 1 + |n.addr|];
    } else {
      SliceOfSlice(put, pe + 1, pe + 1 + |n.addr|, 0, m);
      assert now[pe + 1..pe + 1 + m] == put[pe + 1..pe + 1 + m];
    }
    SliceOfPrefix(put, was, pe + 1, 0, pe);
    assert now[..pe] == put[0..pe];
    SliceSplits(now, pe, pe + 1, pe + 1 + m);
  }

  lemma EncodeLength(p: Prefix)
    ensures |Encode(p)| == 1 + |p.span|
  {
  }

  /** What one more option and the length of all of them make of the body. */
  lemma OptionWritten(was: seq<byte>, put: seq<byte>, now: seq<byte>, at: nat, sent: seq<byte>, b: byte)
    requires HEADER + 10 <= at && at + |sent| <= |was| == |put| == |now|
    requires put[..at] == was[..at] && put[at..at + |sent|] == sent && now == put[HEADER + 9 := b]
    ensures now[..HEADER] == was[..HEADER]
    ensures now[HEADER..at + |sent|] == was[HEADER..at][9 := b] + sent && was[HEADER..at][9] == was[HEADER + 9] == put[HEADER + 9]
  {
    var pe := at + |sent|;
    SliceOfPrefix(put, was, at, HEADER, at);
    SliceOfPrefix(put, was, at, 0, HEADER);
    assert now[..HEADER] == put[0..HEADER];
    assert put[HEADER + 9] == put[HEADER..at][9];
    SliceSplits(now, HEADER, at, pe);
    assert now[at..pe] == put[at..pe];
    assert now[HEADER..at] == put[HEADER..at][9 := b];
  }

  lemma OpenWritten(was: seq<byte>, put: seq<byte>, now: seq<byte>, fixed: seq<byte>, id: seq<byte>)
    requires |fixed| == 5 && |id| <= 4 && HEADER + 10 <= |was| == |put| == |now|
    requires put[..HEADER] == was[..HEADER] && put[HEADER..HEADER + 5] == fixed
    requires now[..HEADER + 5] == put[..HEADER + 5] && now[HEADER + 5..HEADER + 5 + |id|] == id
    ensures now[..HEADER] == was[..HEADER]
    ensures var body := now[HEADER..HEADER + 10];
      body[..5] == fixed && body[5..5 + |id|] == id && body[9] == now[HEADER + 9]
  {
    SliceOfPrefix(now, put, HEADER + 5, 0, HEADER);
    SliceOfPrefix(now, put, HEADER + 5, HEADER, HEADER + 5);
    assert now[..HEADER] == now[0..HEADER] && put[..HEADER] == put[0..HEADER];
    SliceOfSlice(now, HEADER, HEADER + 10, 0, 5);
    SliceOfSlice(now, HEADER, HEADER + 10, 5, 5 + |id|);
  }

  class Message {
    var data: array<byte>
    var allocLen: nat
    var optLenGiven: bool
    var prevPart: Part
    var wdrLenPtr: nat
    var attrLenPtr: nat
    var optLenPtr: nat
    /** The routes added by -buw and by -bun. */
    ghost var withdrawn: seq<Prefix>
    ghost var nlri: seq<Prefix>

    ghost predicate Valid()
      reads this, data
    {
      && data.Length == BGP_BUFLEN && allocLen <= BGP_BUFLEN
      && Holds(data[..allocLen], prevPart, withdrawn, nlri)
      && (prevPart == UpdateWdr ==> wdrLenPtr == HEADER)
      && (prevPart in {Open, OpenOpt} ==> optLenPtr == HEADER + 9)
    }

    /** The message so far. */
    ghost function Contents(): seq<byte>
      reads this, data
      requires Valid()
    {
      data[..allocLen]
    }

    /** initialize: a KEEPALIVE message */
    constructor ()
      ensures Valid() && fresh(data) && prevPart == Header && withdrawn == [] && nlri == []
      ensures data[18] == 4
    {
      data := new byte[BGP_BUFLEN](i => if i < 16 then 0xFF else if i == 16 then 19 else if i == 18 then 4 else 0);
      allocLen, optLenGiven, prevPart := HEADER, false, Header;
      wdrLenPtr, attrLenPtr, optLenPtr := 0, 0, 0;
      withdrawn, nlri := [], [];
    }

    /** bgp_parse_nlri on parsed numbers: writes from pe on and returns how many bytes count. */
    method ParseNlri(pe: nat, n: NlriArg) returns (len: nat, ghost p: Prefix)
      requires pe + 1 + Max(Sent(n), |n.addr|) <= data.Length
      modifies data
      ensures Adds(p, n) && len == |Encode(p)|
      ensures pe + len <= data.Length
      ensures data[..pe] == old(data[..pe]) && data[pe..pe + len] == Encode(p)
    {
      hide Poke, Encode, Adds;
      ghost var was := data[..];
      Put(data, pe + 1, n.addr);
      PokedBehind(was, pe + 1, n.addr);
      ghost var put := data[..];
      data[pe] := n.length;
      var bytes;
      if n.bytes.Some? {
        bytes := n.bytes.value;
      } else {
        bytes := if n.length > 0 then (n.length - 1) / 8 + 1 else 0;
      }
      len := 1 + bytes;
      assert bytes == Sent(n);
      p := Prefix(n.length, data[pe + 1..pe + len]);
      PrefixWritten(was, put, data[..], pe, n);
      EncodeLength(p);
    }

    /** What -buw and -bun do first in a message that has no body yet. */
    method StartUpdate(pe: nat) returns (pe': nat)
      requires data.Length == BGP_BUFLEN && HEADER <= pe && pe + 2 <= BGP_BUFLEN
      requires prevPart == Header ==> pe == HEADER
      modifies this`wdrLenPtr, this`prevPart, data
      ensures data[..pe] == old(data[..pe])
      ensures if old(prevPart) == Header then
          pe' == pe + 2 && prevPart == UpdateWdrLen && wdrLenPtr == HEADER && data[HEADER..pe'] == WithdrawnPart([])
        else pe' == pe && prevPart == old(prevPart) && wdrLenPtr == old(wdrLenPtr) && data[..] == old(data[..])
    {
      hide Poke, WithdrawnPart, Le16;
      pe' := pe;
      if prevPart == Header {
        wdrLenPtr := pe;
        PutShort(data, pe, 0);
        PokedBehind(old(data[..]), pe, Le16(0));
        pe' := pe + 2;
        prevPart := UpdateWdrLen;
        NothingWithdrawn();
      }
    }

    /** One more route behind the withdrawn ones, and their length. */
    method AppendWithdrawn(pd: nat, n: NlriArg) returns (pe: nat, ghost p: Prefix)
      requires data.Length == BGP_BUFLEN && HEADER + 2 <= pd && pd + 1 + Max(Sent(n), |n.addr|) <= BGP_BUFLEN
      requires wdrLenPtr == HEADER && data[HEADER..pd] == WithdrawnPart(withdrawn)
      modifies data
      ensures Adds(p, n) && HEADER <= pe <= BGP_BUFLEN
      ensures data[HEADER..pe] == WithdrawnPart(withdrawn + [p])
      ensures data[..HEADER] == old(data[..HEADER])
    {
      hide Poke, EncodeAll, Encode, WithdrawnPart, Adds, Sent;
      ghost var was := data[..];
      var len;
      len, p := ParseNlri(pd, n);
      pe := pd + len;
      SliceOfPrefix(data[..], was, pd, HEADER, pd);
      SliceOfPrefix(data[..], was, pd, 0, HEADER);
      WithdrawnExtended(data[..], pd, withdrawn, p);
      WithdrawnLength(data[..], pd, withdrawn);
      PutShort(data, wdrLenPtr, GetShort(data[..], wdrLenPtr) + pe - pd);
    }

    /** -buw */
    method AddWithdrawn(n: NlriArg) returns (rc: bool, pe: nat, ghost p: Prefix)
      requires Valid() && 1 <= |n.addr| && allocLen + Needs(Withdraw(n)) <= BGP_BUFLEN
      modifies this`wdrLenPtr, this`prevPart, this`withdrawn, data
      ensures rc == Accepts(old(prevPart), Withdraw(n))
      ensures rc ==>
        && prevPart == UpdateWdr && wdrLenPtr == HEADER <= pe <= BGP_BUFLEN
        && withdrawn == old(withdrawn) + [p] && Adds(p, n)
        && Shape(UpdateWdr, data[HEADER..pe], withdrawn, nlri)
        && data[..HEADER] == old(data[..HEADER])
      ensures !rc ==> unchanged(this) && data[..] == old(data[..])
    {
      hide Poke, Needs, EncodeAll, Encode, WithdrawnPart, Adds;
      NeedsRoom(n);
      ghost var before := data[..];
      pe := StartUpdate(allocLen);
      SliceOfPrefix(data[..], before, allocLen, 0, HEADER);
      p := Prefix(0, []);
      if prevPart != UpdateWdr && prevPart != UpdateWdrLen {
        return false, pe, p;
      }
      pe, p := AppendWithdrawn(pe, n);
      withdrawn := withdrawn + [p];
      prevPart := UpdateWdr;
      rc := true;
    }

    /** What -bun does first behind the withdrawn routes. */
    method StartAttributes(pe: nat) returns (pe': nat)
      requires data.Length == BGP_BUFLEN && HEADER <= pe && pe + 2 <= BGP_BUFLEN
      requires prevPart in {UpdateWdrLen, UpdateWdr} ==> data[HEADER..pe] == WithdrawnPart(withdrawn)
      modifies this`attrLenPtr, this`prevPart, data
      ensures data[..HEADER] == old(data[..HEADER])
      ensures if old(prevPart) in {UpdateWdrLen, UpdateWdr} then
          pe' == pe + 2 && prevPart == UpdateAttrLen
          && data[HEADER..pe'] == WithdrawnPart(withdrawn) + Le16(0) + EncodeAll([])
        else pe' == pe && prevPart == old(prevPart) && attrLenPtr == old(attrLenPtr) && data[..] == old(data[..])
    {
      hide Poke, WithdrawnPart, Le16, EncodeAll;
      pe' := pe;
      if prevPart == UpdateWdrLen || prevPart == UpdateWdr {
        ghost var started := data[..];
        attrLenPtr := pe;
        PutShort(data, pe, 0);
        PokedBehind(started, pe, Le16(0));
        SliceOfPrefix(data[..], started, pe, 0, HEADER);
        SliceOfPrefix(data[..], started, pe, HEADER, pe);
        pe' := pe + 2;
        prevPart := UpdateAttrLen;
        AttributesEmpty(data[..], pe', withdrawn);
      }
    }

    /** One more route behind the reachable ones. */
    method AppendAnnounced(pd: nat, n: NlriArg) returns (pe: nat, ghost p: Prefix)
      requires HEADER <= pd && pd + 1 + Max(Sent(n), |n.addr|) <= data.Length
      requires data[HEADER..pd] == WithdrawnPart(withdrawn) + Le16(0) + EncodeAll(nlri)
      modifies data
      ensures Adds(p, n) && HEADER <= pe <= data.Length
      ensures data[HEADER..pe] == WithdrawnPart(withdrawn) + Le16(0) + EncodeAll(nlri + [p])
      ensures data[..HEADER] == old(data[..HEADER])
    {
      hide EncodeAll, Encode, WithdrawnPart, Adds, Sent, Le16;
      ghost var was := data[..];
      var len;
      len, p := ParseNlri(pd, n);
      SliceOfPrefix(data[..], was, pd, HEADER, pd);
      SliceOfPrefix(data[..], was, pd, 0, HEADER);
      AnnouncedExtended(data[..], pd, withdrawn, nlri, p);
      pe := pd + len;
    }

    /** -bun */
    method AddAnnounced(n: NlriArg) returns (rc: bool, pe: nat, ghost p: Prefix)
      requires Valid() && 1 <= |n.addr| && allocLen + Needs(Announce(n)) <= BGP_BUFLEN
      modifies this`wdrLenPtr, this`attrLenPtr, this`prevPart, this`nlri, data
      ensures rc == Accepts(old(prevPart), Announce(n))
      ensures rc ==>
        && prevPart == UpdateNlri && HEADER <= pe <= BGP_BUFLEN
        && nlri == old(nlri) + [p] && Adds(p, n)
        && Shape(UpdateNlri, data[HEADER..pe], withdrawn, nlri)
        && data[..HEADER] == old(data[..HEADER])
      ensures !rc ==> unchanged(this) && data[..] == old(data[..])
    {
      hide Poke, Needs, EncodeAll, Encode, WithdrawnPart, Adds;
      NeedsRoom(n);
      ghost var before := data[..];
      pe := StartUpdate(allocLen);
      SliceOfPrefix(data[..], before, allocLen, 0, HEADER);
      pe := StartAttributes(pe);
      p := Prefix(0, []);
      if prevPart != UpdateAttrLen && prevPart != UpdateAttr && prevPart != UpdateNlri {
        return false, pe, p;
      }
      pe, p := AppendAnnounced(pe, n);
      nlri := nlri + [p];
      prevPart := UpdateNlri;
      rc := true;
    }

    /** The identifier and the length of the options, behind the fixed fields. */
    method WriteOpenEnd(pe: nat, id: seq<byte>, olen: byte)
      requires |id| <= 4 && pe + 10 <= data.Length
      modifies data
      ensures data[..pe + 5] == old(data[..pe + 5])
      ensures data[pe + 5..pe + 5 + |id|] == id && data[pe + 9] == olen
    {
      hide Poke;
      ghost var was := data[..];
      Put(data, pe + 5, id);
      PokedBehind(was, pe + 5, id);
      ghost var put := data[..];
      data[pe + 9] := olen;
      assert data[..pe + 5] == put[..pe + 5];
      assert data[pe + 5..pe + 5 + |id|] == put[pe + 5..pe + 5 + |id|];
    }

    /** -bo; the fields are written even when the identifier then turns out invalid. */
    method OpenBody(version: byte, asn: word, hold: word, id: seq<byte>, olen: Maybe<byte>) returns (rc: bool, pe: nat)
      requires Valid() && |id| <= 4 && allocLen + 10 <= BGP_BUFLEN
      modifies this`optLenGiven, this`optLenPtr, this`prevPart, data
      ensures data[..allocLen] == old(data[..allocLen])
      ensures rc == (old(prevPart) == Header && |id| > 0)
      ensures rc ==>
        && prevPart == Open && allocLen == HEADER && pe == HEADER + 10 && optLenPtr == HEADER + 9
        && SendsOpen(version, asn, hold, id, olen, data[HEADER..pe]) && Shape(Open, data[HEADER..pe], withdrawn, nlri)
        && optLenGiven == (old(optLenGiven) || olen.Some?)
      ensures !rc ==> unchanged(this)
    {
      hide Poke, Le16, EncodeAll, WithdrawnPart;
      pe := allocLen;
      if prevPart != Header {
        return false, pe;
      }
      ghost var was := data[..];
      var fixed := [version] + Le16(asn) + Le16(hold);
      Put(data, pe, fixed);
      PokedBehind(was, pe, fixed);
      if |id| == 0 {
        return false, pe;
      }
      ghost var put := data[..];
      WriteOpenEnd(pe, id, if olen.Some? then olen.value else 0);
      OpenWritten(was, put, data[..], fixed, id);
      optLenGiven := optLenGiven || olen.Some?;
      optLenPtr := pe + 9;
      pe := pe + 10;
      prevPart := Open;
      rc := true;
    }

    /** Appends an option and counts it in the length of all options, unless that was given. */
    method WriteOption(pe: nat, sent: seq<byte>)
      requires HEADER + 10 <= pe && pe + |sent| <= data.Length && optLenPtr == HEADER + 9
      modifies data
      ensures data[..HEADER] == old(data[..HEADER])
      ensures var body := old(data[HEADER..pe]);
        data[HEADER..pe + |sent|] == body[9 := if optLenGiven then body[9] else (body[9] + |sent|) % 0x100] + sent
    {
      hide Poke;
      ghost var was := data[..];
      Put(data, pe, sent);
      PokedBehind(was, pe, sent);
      ghost var put := data[..];
      if !optLenGiven {
        data[optLenPtr] := (data[optLenPtr] + |sent|) % 0x100;
      }
      OptionWritten(was, put, data[..], pe, sent, data[HEADER + 9]);
    }

    /** -boo */
    method OpenOptionBody(kind: byte, length: Maybe<byte>, value: seq<byte>) returns (rc: bool, pe: nat)
      requires Valid() && |value| <= 0xFF && allocLen + 2 + |value| <= BGP_BUFLEN
      modifies this`prevPart, data
      ensures rc == (old(prevPart) in {Open, OpenOpt})
      ensures !rc ==> unchanged(this) && data[..] == old(data[..])
      ensures rc ==>
        && prevPart == OpenOpt && HEADER + 10 <= allocLen <= pe <= BGP_BUFLEN
        && data[..HEADER] == old(data[..HEADER])
        && SendsOpenOption(kind, length, value, optLenGiven, old(data[HEADER..allocLen]), data[HEADER..pe])
        && Shape(OpenOpt, data[HEADER..pe], withdrawn, nlri)
    {
      hide Holds, EncodeAll, WithdrawnPart;
      pe := allocLen;
      if prevPart != Open && prevPart != OpenOpt {
        return false, pe;
      }
      HoldsOptions(data[..allocLen], prevPart, withdrawn, nlri);
      var sent := [kind, if length.Some? then length.value else (2 + |value|) % 0x100] + value;
      WriteOption(pe, sent);
      pe := pe + |sent|;
      prevPart := OpenOpt;
      rc := true;
    }

    /** -bn */
    method NotificationBody(code: byte, subcode: byte, more: seq<byte>) returns (rc: bool, pe: nat)
      requires Valid() && allocLen + 2 + |more| <= BGP_BUFLEN
      modifies this`prevPart, data
      ensures data[..allocLen] == old(data[..allocLen])
      ensures rc == (old(prevPart) == Header)
      ensures !rc ==> unchanged(this)
      ensures rc ==>
        && prevPart == Notfn && allocLen == HEADER && pe == HEADER + 2 + |more|
        && data[HEADER..pe] == [code, subcode] + more && Shape(Notfn, data[HEADER..pe], withdrawn, nlri)
    {
      hide Poke;
      pe := allocLen;
      if prevPart != Header {
        return false, pe;
      }
      ghost var was := data[..];
      Put(data, pe, [code, subcode] + more);
      PokedBehind(was, pe, [code, subcode] + more);
      pe := pe + 2 + |more|;
      prevPart := Notfn;
      rc := true;
    }

    /** -bm and -bt overwrite bytes of the header. */
    method SetHeader(at: nat, v: seq<byte>)
      requires Valid() && (at + |v| <= 16 || (at == 18 && |v| == 1))
      modifies data
      ensures data[..16] == (if at < 16 then Poke(old(data[..16]), at, v) else old(data[..16]))
      ensures data[18] == if at == 18 then v[0] else old(data[18])
      ensures data[HEADER..allocLen] == old(data[HEADER..allocLen])
    {
      Put(data, at, v);
    }

    /** The body of the message with what the option adds, and where it ends. */
    method ExtendBody(o: Option) returns (rc: bool, pe: nat, ghost p: Prefix)
      requires Valid() && Parsable(o) && allocLen + Needs(o) <= BGP_BUFLEN
      modifies this`optLenGiven, this`optLenPtr, this`wdrLenPtr, this`attrLenPtr, this`prevPart, this`withdrawn, this`nlri, data
      ensures rc == Accepts(old(prevPart), o)
      ensures !rc ==> unchanged(this) && data[..allocLen] == old(data[..allocLen])
      ensures rc ==>
        && HEADER <= pe <= BGP_BUFLEN && prevPart == NextPart(old(prevPart), o)
        && optLenGiven == (old(optLenGiven) || (o.OpenMessage? && o.olen.Some?))
        && (prevPart == UpdateWdr ==> wdrLenPtr == HEADER)
        && (prevPart in {Open, OpenOpt} ==> optLenPtr == HEADER + 9)
        && Shape(prevPart, data[HEADER..pe], withdrawn, nlri)
        && Sends(o, old(optLenGiven), old(data[HEADER..allocLen]), data[HEADER..pe])
        && withdrawn == (if o.Withdraw? then old(withdrawn) + [p] else old(withdrawn))
        && nlri == (if o.Announce? then old(nlri) + [p] else old(nlri))
        && (o.Withdraw? || o.Announce? ==> Adds(p, o.nlri))
        && data[..16] == (if o.Marker? then Poke(old(data[..16]), 0, o.bytes) else old(data[..16]))
        && data[18] == (if o.Type? then o.kind else old(data[18]))
    {
      hide Poke, Shape, Adds, Needs, SendsOpen, SendsOpenOption;
      pe := allocLen;
      p := Prefix(0, []);
      NeedsIs(o);
      ghost var was := data[..];
      ShapeOfContents(data[..allocLen], prevPart, withdrawn, nlri);
      assert was[..allocLen][HEADER..] == was[HEADER..allocLen];
      match o {
        case Marker(bytes) =>
          SetHeader(0, bytes);
          return true, pe, p;
        case Type(kind) =>
          SetHeader(18, [kind]);
          return true, pe, p;
        case OpenMessage(version, asn, hold, id, olen) =>
          rc, pe := OpenBody(version, asn, hold, id, olen);
        case OpenOption(kind, length, value) =>
          rc, pe := OpenOptionBody(kind, length, value);
        case Withdraw(n) =>
          rc, pe, p := AddWithdrawn(n);
        case Announce(n) =>
          rc, pe, p := AddAnnounced(n);
        case Notification(code, subcode, more) =>
          rc, pe := NotificationBody(code, subcode, more);
      }
      if rc {
        assert data[..HEADER] == was[..HEADER] by {
          if o.OpenMessage? || o.Notification? {
            SliceOfPrefix(data[..], was, allocLen, 0, HEADER);
          }
        }
        HeaderKept(data[..], was);
      }
    }

    /** What do_opt does last: the length of the whole message. */
    method Conclude(pe: nat)
      requires data.Length == BGP_BUFLEN && HEADER <= pe <= BGP_BUFLEN
      requires Shape(prevPart, data[HEADER..pe], withdrawn, nlri)
      requires prevPart == UpdateWdr ==> wdrLenPtr == HEADER
      requires prevPart in {Open, OpenOpt} ==> optLenPtr == HEADER + 9
      modifies this`allocLen, data
      ensures Valid() && allocLen == pe
      ensures data[..16] == old(data[..16]) && data[18] == old(data[18])
      ensures Contents()[HEADER..] == old(data[HEADER..pe])
    {
      hide Poke, Shape, Le16;
      allocLen := pe;
      ghost var was := data[..];
      PutShort(data, 16, allocLen);
      LengthIsPut(was, pe);
      assert data[18] == data[18..][0] == was[18..][0];
      SuffixOfPrefix(data[..], pe, HEADER);
      SliceOfSuffix(data[..], 18, 1, pe - 18);
      SliceOfSuffix(was, 18, 1, pe - 18);
      assert GetShort(data[..allocLen], 16) == GetShort(data[..], 16);
    }

    /** do_opt: an option that is not accepted changes nothing in the message. */
    method DoOpt(o: Option) returns (rc: bool, ghost p: Prefix)
      requires Valid() && Parsable(o) && allocLen + Needs(o) <= BGP_BUFLEN
      modifies this, data
      ensures Valid() && data == old(data)
      ensures rc == Accepts(old(prevPart), o)
      ensures !rc ==>
        Contents() == old(Contents()) && prevPart == old(prevPart)
        && withdrawn == old(withdrawn) && nlri == old(nlri) && optLenGiven == old(optLenGiven)
      ensures rc ==> prevPart == NextPart(old(prevPart), o)
      ensures rc ==> optLenGiven == (old(optLenGiven) || (o.OpenMessage? && o.olen.Some?))
      ensures rc ==> withdrawn == (if o.Withdraw? then old(withdrawn) + [p] else old(withdrawn))
      ensures rc ==> nlri == (if o.Announce? then old(nlri) + [p] else old(nlri))
      ensures rc && (o.Withdraw? || o.Announce?) ==> Adds(p, o.nlri)
      ensures rc ==> data[..16] == (if o.Marker? then Poke(old(data[..16]), 0, o.bytes) else old(data[..16]))
      ensures rc ==> data[18] == if o.Type? then o.kind else old(data[18])
      ensures rc ==> Sends(o, old(optLenGiven), old(data[HEADER..allocLen]), Contents()[HEADER..])
    {
      hide Poke, Shape, Adds, Needs, Sends, Accepts, NextPart;
      var pe;
      rc, pe, p := ExtendBody(o);
      if rc {
        Conclude(pe);
      }
    }
  }

  lemma HoldsOptions(m: seq<byte>, part: Part, withdrawn: seq<Prefix>, nlri: seq<Prefix>)
    requires Holds(m, part, withdrawn, nlri) && part in {Open, OpenOpt}
    ensures |m| >= HEADER + 10 && withdrawn == [] && nlri == []
  {
  }

  lemma HeaderKept(s: seq<byte>, t: seq<byte>)
    requires |s| >= HEADER && |t| >= HEADER && s[..HEADER] == t[..HEADER]
    ensures s[..16] == t[..16] && s[18] == t[18]
  {
    assert s[..16] == s[..HEADER][..16] && s[18] == s[..HEADER][18];
  }

  lemma ShapeOfContents(m: seq<byte>, part: Part, withdrawn: seq<Prefix>, nlri: seq<Prefix>)
    requires Holds(m, part, withdrawn, nlri)
    ensures |m| >= HEADER && Shape(part, m[HEADER..], withdrawn, nlri)
    ensures part == Header ==> |m| == HEADER
  {
  }

  lemma NeedsIs(o: Option)
    ensures match o
      case OpenMessage(_, _, _, _, _) => Needs(o) == 10
      case OpenOption(_, _, v) => Needs(o) == 2 + |v|
      case Notification(_, _, b) => Needs(o) == 2 + |b|
      case _ => true
  {
  }

  lemma NeedsRoom(n: NlriArg)
    ensures Needs(Withdraw(n)) == 3 + Max(Sent(n), |n.addr|) && Needs(Announce(n)) == 5 + Max(Sent(n), |n.addr|)
  {
  }
}
