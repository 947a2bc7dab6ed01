/** The options of hop.c: TLV options are appended one by one, and the used length hides in the
header length byte and the low three bits of the flags. */
module HopOptions {
  import opened Bytes
  import opened Hop
  import opened SendipModule
  import opened Wrappers

  const HOP_MOD_PAD0: bv32 := 16
  const HOP_MOD_PADN: bv32 := 32
  const HOP_MOD_RA: bv32 := 64
  const HOP_MOD_JUMBO: bv32 := 128
  const HOP_MOD_HAO: bv32 := 256
  const HOP_MOD_TLV: bv32 := 512

  const IPV6_TLV_PADN: byte := 1
  const IPV6_TLV_ROUTERALERT: byte := 5
  const IPV6_TLV_JUMBO: byte := 194
  const IPV6_TLV_HAO: byte := 201

  type Value = s: seq<byte> | |s| < 0x100

  /** An option of RFC 8200, section 4.2. Type zero is the one-byte padding. */
  datatype Tlv = Pad1 | Tlv(kind: byte, value: Value)

  predicate WellTyped(o: Tlv)
  {
    o.Tlv? ==> o.kind != 0
  }

  function Encode(o: Tlv): (r: seq<byte>)
    ensures 1 <= |r| <= 257
  {
    match o
    case Pad1 => [0]
    case Tlv(k, v) => [k, |v|] + v
  }

  function EncodeAll(os: seq<Tlv>): seq<byte>
  {
    if |os| == 0 then [] else EncodeAll(os[..|os| - 1]) + Encode(os[|os| - 1])
  }

  // ----- the receiver

  datatype Parsed = Malformed | Options(options: seq<Tlv>)

  function ParseOptions(s: seq<byte>): Parsed
  {
    if |s| == 0 then Options([])
    else if s[0] == 0 then Prefixed(Pad1, ParseOptions(s[1..]))
    else if |s| < 2 || |s| < 2 + s[1] as nat then Malformed
    else Prefixed(Tlv(s[0], s[2..2 + s[1] as nat]), ParseOptions(s[2 + s[1] as nat..]))
  }

  function Prefixed(o: Tlv, p: Parsed): Parsed
  {
    if p.Malformed? then Malformed else Options([o] + p.options)
  }

  /** The header length counts 8-byte units after the first one. */
  function ClaimedLength(h: seq<byte>): nat
    requires |h| >= 2
  {
    (h[1] as nat + 1) * 8
  }

  function ParseHeader(h: seq<byte>): Parsed
  {
    if |h| < 2 || |h| < ClaimedLength(h) then Malformed else ParseOptions(h[2..ClaimedLength(h)])
  }

  function Pads(n: nat): (r: seq<Tlv>)
    ensures |r| == n
  {
    seq(n, _ => Pad1)
  }

  lemma {:induction false} ParsesPads(n: nat)
    ensures ParseOptions(Zeros(n)) == Options(Pads(n))
  {
    if n > 0 {
      ParsesPads(n - 1);
      assert Zeros(n)[1..] == Zeros(n - 1);
      assert [Pad1] + Pads(n - 1) == Pads(n);
    }
  }

  lemma ParsesFirst(o: Tlv, rest: seq<byte>)
    requires WellTyped(o)
    ensures ParseOptions(Encode(o) + rest) == Prefixed(o, ParseOptions(rest))
  {
    var s := Encode(o) + rest;
    if o.Pad1? {
      assert s[1..] == rest;
    } else {
      assert s[2..2 + |o.value|] == o.value && s[2 + |o.value|..] == rest;
    }
  }

  lemma {:induction false} ParsesAll(os: seq<Tlv>, rest: seq<byte>, more: seq<Tlv>)
    requires forall k :: 0 <= k < |os| ==> WellTyped(os[k])
    requires ParseOptions(rest) == Options(more)
    ensures ParseOptions(EncodeAll(os) + rest) == Options(os + more)
  {
    hide ParseOptions, Encode, WellTyped;
    if |os| == 0 {
      assert EncodeAll(os) + rest == rest && os + more == more;
    } else {
      var front, last := os[..|os| - 1], os[|os| - 1];
      ParsesFirst(last, rest);
      ParsesAll(front, Encode(last) + rest, [last] + more);
      assert EncodeAll(os) + rest == EncodeAll(front) + (Encode(last) + rest);
      assert os + more == front + ([last] + more);
    }
  }

  // ----- the builder's state

  /** The header h holds exactly the options os: the used length is the true one, and the
  allocation is a multiple of 8 within 8 bytes of it. */
  predicate Holds(h: seq<byte>, modified: bv32, os: seq<Tlv>)
  {
    && |h| % 8 == 0 && |h| >= 8
    && 2 + |EncodeAll(os)| <= |h| <= 2 + |EncodeAll(os)| + 8
    && Used(h, modified) == 2 + |EncodeAll(os)|
    && h[2..2 + |EncodeAll(os)|] == EncodeAll(os)
    && forall k :: 0 <= k < |os| ==> WellTyped(os[k])
  }

  /** The length byte ends up right exactly when the options do not fill the allocation. */
  lemma LengthIsRightIff(h: seq<byte>, modified: bv32, next: char, os: seq<Tlv>)
    requires Holds(h, modified, os) && |h| <= 2048
    ensures ClaimedLength(Finalized(h, modified, next)) == |h| <==> Used(h, modified) != |h|
    ensures Used(h, modified) == |h| ==> ClaimedLength(Finalized(h, modified, next)) == |h| + 8
  {
    hide Has, EncodeAll, LowBits;
    var used := Used(h, modified);
    var f := Unless(Has(modified, HOP_MOD_NEXTHDR), h, 0, [Headers.ProtocolOf(next)]);
    assert f[1] == h[1];
    if used != |h| {
      assert |h| / 8 - 1 < 0x100;
    }
  }

  lemma FinalBody(h: seq<byte>, modified: bv32, next: char, os: seq<Tlv>)
    requires Holds(h, modified, os) && Used(h, modified) != |h|
    ensures Finalized(h, modified, next)[2..] == EncodeAll(os) + Zeros(|h| - Used(h, modified))
  {
    hide Has, EncodeAll, LowBits;
    var used := Used(h, modified);
    var f := Unless(Has(modified, HOP_MOD_NEXTHDR), h, 0, [Headers.ProtocolOf(next)]);
    assert f[2..] == h[2..];
    assert f[2..used] == EncodeAll(os) by {
      assert f[2..used] == h[2..used];
    }
  }

  /** Round trip: a receiver parsing the finalized header gets back exactly the options that were
  added, followed by one-byte paddings; he can parse it exactly when the options did not fill the
  allocation. */
  lemma FinalizedParsesIff(h: seq<byte>, modified: bv32, next: char, os: seq<Tlv>)
    requires Holds(h, modified, os) && |h| <= 2048
    ensures Used(h, modified) != |h| ==>
      ParseHeader(Finalized(h, modified, next)) == Options(os + Pads(|h| - Used(h, modified)))
    ensures Used(h, modified) == |h| ==> ParseHeader(Finalized(h, modified, next)) == Malformed
  {
    hide Holds, Finalized, EncodeAll, Used, ParseOptions;
    LengthIsRightIff(h, modified, next, os);
    HoldsBounds(h, modified, os);
    if Used(h, modified) != |h| {
      var n := |h| - Used(h, modified);
      FinalBody(h, modified, next, os);
      ParsesPads(n);
      ParsesAll(os, Zeros(n), Pads(n));
      assert Finalized(h, modified, next)[2..|h|] == Finalized(h, modified, next)[2..];
    }
  }

  lemma HoldsBounds(h: seq<byte>, modified: bv32, os: seq<Tlv>)
    requires Holds(h, modified, os)
    ensures |h| >= 8 && 2 <= Used(h, modified) <= |h|
    ensures forall k :: 0 <= k < |os| ==> WellTyped(os[k])
  {
  }

  // ----- the low bits of the flags

  function LowWord(n: nat): bv32
    requires n < 8
  {
    if n == 0 then 0 else if n == 1 then 1 else if n == 2 then 2 else if n == 3 then 3
    else if n == 4 then 4 else if n == 5 then 5 else if n == 6 then 6 else 7
  }

  /** modified &= ~7; modified |= n */
  function WithLowBits(modified: bv32, n: nat): bv32
    requires n < 8
  {
    (modified & 0xFFFF_FFF8) | LowWord(n)
  }

  lemma LowBitsReplaced(modified: bv32, low: bv32)
    requires low & 7 == low
    ensures ((modified & 0xFFFF_FFF8) | low) & 7 == low
  {
  }

  lemma LowWordIs(n: nat)
    requires n < 8
    ensures LowWord(n) & 7 == LowWord(n) && LowBits(LowWord(n)) == n
  {
  }

  lemma WithLowBitsIs(modified: bv32, n: nat)
    requires n < 8
    ensures LowBits(WithLowBits(modified, n)) == n
  {
    hide LowWord;
    LowWordIs(n);
    LowBitsReplaced(modified, LowWord(n));
  }

  lemma HighBitsKept(modified: bv32, low: bv32, flag: bv32)
    requires low & 7 == low && flag & 7 == 0
    ensures ((modified & 0xFFFF_FFF8) | low) & flag == modified & flag
  {
  }

  /** Updating the length leaves every option flag alone, and setting a flag leaves the length alone. */
  lemma FlagsAndLengthApart(modified: bv32, n: nat, flag: bv32)
    requires n < 8 && flag & 7 == 0
    ensures Has(WithLowBits(modified, n), flag) == Has(modified, flag)
    ensures LowBits(modified | flag) == LowBits(modified)
  {
    hide Has, WithLowBits;
    FlagsKept(modified, n, flag);
    FlagBesidesLength(modified, flag);
  }

  lemma FlagsKept(modified: bv32, n: nat, flag: bv32)
    requires n < 8 && flag & 7 == 0
    ensures Has(WithLowBits(modified, n), flag) == Has(modified, flag)
  {
    hide LowWord;
    LowWordIs(n);
    HighBitsKept(modified, LowWord(n), flag);
  }

  lemma FlagBesidesLength(modified: bv32, flag: bv32)
    requires flag & 7 == 0
    ensures (modified | flag) & 7 == modified & 7
  {
  }

  // ----- the builder

  /** An option as do_opt passes it to addopt: none for -H0, else type and data whose length is
  the declared one. */
  datatype Request = NoOption | Option(kind: byte, value: Value)

  /** addopt treats type zero like no option. */
  function Meant(r: Request): (o: Tlv)
    ensures WellTyped(o)
  {
    if r.NoOption? || r.kind == 0 then Pad1 else Tlv(r.kind, r.value)
  }

  /** The options of hop.c with their parsed arguments. */
  datatype HopOption =
    | PadOne
    | PadN(n: nat)
    | RouterAlert(alert: seq<byte>)
    | Jumbo(length: seq<byte>)
    | HomeAddress(addr: seq<byte>)
    | Arbitrary(kind: byte, value: Value)

  predicate Parsable(o: HopOption)
  {
    match o
    case RouterAlert(v) => |v| == 2
    case Jumbo(l) => |l| == 4
    case HomeAddress(a) => |a| == 16
    case _ => true
  }

  /** Padding outside 2..257 is rejected. */
  predicate Accepted(o: HopOption)
  {
    o.PadN? ==> 2 <= o.n <= 257
  }

  function RequestOf(o: HopOption): Request
    requires Parsable(o) && Accepted(o)
  {
    match o
    case PadOne => NoOption
    case PadN(n) => Option(IPV6_TLV_PADN, Zeros(n - 2))
    case RouterAlert(v) => Option(IPV6_TLV_ROUTERALERT, v)
    case Jumbo(l) => Option(IPV6_TLV_JUMBO, l)
    case HomeAddress(a) => Option(IPV6_TLV_HAO, a)
    case Arbitrary(k, v) => Option(k, v)
  }

  /** What each option is on the wire: RFC 8200, section 4.2 (padding), RFC 2711 (router alert),
  RFC 2675 (jumbo payload) and RFC 6275 (home address). */
  lemma OnTheWire(o: HopOption)
    requires Parsable(o) && Accepted(o)
    ensures Encode(Meant(RequestOf(o))) ==
      match o
      case PadOne => [0]
      case PadN(n) => [1, n - 2] + Zeros(n - 2)
      case RouterAlert(v) => [5, 2] + v
      case Jumbo(l) => [0xC2, 4] + l
      case HomeAddress(a) => [0xC9, 16] + a
      case Arbitrary(k, v) => if k == 0 then [0] else [k, |v|] + v
  {
  }

  function FlagOf(o: HopOption): bv32
  {
    match o
    case PadOne => HOP_MOD_PAD0
    case PadN(_) => HOP_MOD_PADN
    case RouterAlert(_) => HOP_MOD_RA
    case Jumbo(_) => HOP_MOD_JUMBO
    case HomeAddress(_) => HOP_MOD_HAO
    case Arbitrary(_, _) => HOP_MOD_TLV
  }

  lemma FlagsAreHigh(o: HopOption)
    ensures FlagOf(o) & 7 == 0
  {
  }

  lemma EncodeAllAppends(os: seq<Tlv>, o: Tlv)
    ensures EncodeAll(os + [o]) == EncodeAll(os) + Encode(o)
  {
    assert (os + [o])[..|os + [o]| - 1] == os;
  }

  /** What the length byte and the low bits of the flags can keep of a length. */
  lemma UsedAgain(used: nat)
    ensures (used / 8) % 0x100 * 8 + used % 8 == used % 2048
  {
  }

  lemma HoldsParts(h: seq<byte>, modified: bv32, os: seq<Tlv>)
    requires Holds(h, modified, os)
    ensures |h| >= 8 && |h| % 8 == 0
    ensures h[1] as nat * HDR_ALLOC + LowBits(modified) == 2 + |EncodeAll(os)| <= |h| <= 2 + |EncodeAll(os)| + 8
    ensures h[2..2 + |EncodeAll(os)|] == EncodeAll(os)
    ensures forall k :: 0 <= k < |os| ==> WellTyped(os[k])
  {
  }

  lemma HoldsWhen(h: seq<byte>, modified: bv32, os: seq<Tlv>)
    requires |h| >= 8 && |h| % 8 == 0
    requires h[1] as nat * HDR_ALLOC + LowBits(modified) == 2 + |EncodeAll(os)| <= |h| <= 2 + |EncodeAll(os)| + 8
    requires h[2..2 + |EncodeAll(os)|] == EncodeAll(os)
    requires forall k :: 0 <= k < |os| ==> WellTyped(os[k])
    ensures Holds(h, modified, os)
  {
  }

  /** The header has the bytes of the options os, and keeps their length modulo 2048. */
  predicate Appended(h: seq<byte>, modified: bv32, os: seq<Tlv>)
  {
    var used := 2 + |EncodeAll(os)|;
    && |h| >= 8 && |h| % 8 == 0 && used <= |h| <= used + 8
    && h[2..used] == EncodeAll(os)
    && Used(h, modified) == used % 2048
  }

  lemma AppendedWhen(h: seq<byte>, modified: bv32, os: seq<Tlv>)
    requires |h| >= 8 && |h| % 8 == 0 && 2 + |EncodeAll(os)| <= |h| <= 2 + |EncodeAll(os)| + 8
    requires h[2..2 + |EncodeAll(os)|] == EncodeAll(os)
    requires h[1] as nat * HDR_ALLOC + LowBits(modified) == (2 + |EncodeAll(os)|) % 2048
    ensures Appended(h, modified, os)
  {
  }

  /** Below 2048 bytes that is all the builder keeps. */
  lemma AppendedIsHeld(h: seq<byte>, modified: bv32, os: seq<Tlv>)
    requires Appended(h, modified, os) && 2 + |EncodeAll(os)| < 2048
    requires forall k :: 0 <= k < |os| ==> WellTyped(os[k])
    ensures Holds(h, modified, os) && |h| <= 2048
  {
    hide EncodeAll, WellTyped, LowBits;
  }

  /** pack->modified |= HOP_MOD_... */
  function WithFlag(modified: bv32, o: HopOption): bv32
  {
    modified | FlagOf(o)
  }

  lemma HoldsWithFlag(h: seq<byte>, modified: bv32, os: seq<Tlv>, o: HopOption)
    requires Holds(h, modified, os)
    ensures Holds(h, WithFlag(modified, o), os)
  {
    hide Holds, EncodeAll, WellTyped, LowBits, FlagOf;
    HoldsParts(h, modified, os);
    FlagsAreHigh(o);
    FlagBesidesLength(modified, FlagOf(o));
    assert LowBits(modified | FlagOf(o)) == LowBits(modified) by {
      FlagsAndLengthApart(modified, 0, FlagOf(o));
    }
    HoldsWhen(h, modified | FlagOf(o), os);
  }

  /** After the option has been written behind the others and the length byte has been set. */
  lemma PutBehind(s: seq<byte>, hoplen: nat, t: seq<byte>, count: byte)
    requires 2 <= hoplen && hoplen + |t| <= |s|
    ensures Poke(s, hoplen, t)[1 := count][2..hoplen + |t|] == s[2..hoplen] + t
    ensures Poke(s, hoplen, t)[1 := count][0] == s[0]
  {
  }

  lemma FlagIsSet(modified: bv32, o: HopOption)
    ensures Has(WithFlag(modified, o), FlagOf(o))
    ensures Has(WithFlag(modified, o), HOP_MOD_NEXTHDR) == Has(modified, HOP_MOD_NEXTHDR)
  {
  }

  lemma FlagStaysSet(modified: bv32, n: nat, o: HopOption)
    requires n < 8
    ensures Has(WithLowBits(WithFlag(modified, o), n), FlagOf(o))
    ensures Has(WithLowBits(WithFlag(modified, o), n), HOP_MOD_NEXTHDR) == Has(modified, HOP_MOD_NEXTHDR)
  {
    hide WithLowBits, WithFlag, FlagOf, Has;
    FlagIsSet(modified, o);
    FlagsAreHigh(o);
    FlagsKept(WithFlag(modified, o), n, FlagOf(o));
    FlagsKept(WithFlag(modified, o), n, HOP_MOD_NEXTHDR);
  }

  class Header {
    var data: array<byte>
    var modified: bv32
    /** The options added so far. */
    ghost var options: seq<Tlv>

    ghost predicate Valid()
      reads this, data
    {
      data.Length <= 2048 && Holds(data[..], modified, options)
    }

    /** initialize */
    constructor ()
      ensures Valid() && fresh(data) && options == [] && !Has(modified, HOP_MOD_NEXTHDR)
    {
      data := new byte[8](_ => 0);
      modified := 2;
      options := [];
      new;
      assert EncodeAll([]) == [] && LowBits(2) == 2;
    }

    /** Space for `optlen` more bytes behind the `hoplen` used ones. */
    method Reserve(hoplen: nat, optlen: nat)
      requires hoplen <= data.Length <= hoplen + 8 && data.Length % 8 == 0 && data.Length >= 8 && optlen >= 1
      modifies this`data
      ensures data == old(data) || fresh(data)
      ensures data.Length % 8 == 0 && data.Length >= 8
      ensures hoplen + optlen <= data.Length <= hoplen + optlen + 8
      ensures data[..hoplen] == old(data[..hoplen])
    {
      if hoplen + optlen > data.Length {
        ghost var was := data[..];
        data := Realloc(data, (1 + (hoplen + optlen) / HDR_ALLOC) * HDR_ALLOC);
        assert data[..hoplen] == data[..|was|][..hoplen];
      }
    }

    /** The option behind the used bytes, and the count of full units. */
    method Append(hoplen: nat, bytes: seq<byte>, count: byte)
      requires 2 <= hoplen && hoplen + |bytes| <= data.Length
      modifies data
      ensures data[2..hoplen + |bytes|] == old(data[2..hoplen]) + bytes
      ensures data[0] == old(data[0]) && data[1] == count
    {
      hide Poke;
      Put(data, hoplen, bytes);
      data[1] := count;
      assert data[..] == Poke(old(data[..]), hoplen, bytes)[1 := count];
      PutBehind(old(data[..]), hoplen, bytes, count);
    }

    /** addopt. The builder goes on as long as the header stays below 2048 bytes. */
    method AddOption(r: Request)
      requires Valid()
      modifies this, data
      ensures data == old(data) || fresh(data)
      ensures options == old(options) + [Meant(r)] && Appended(data[..], modified, options)
      ensures 2 + |EncodeAll(options)| < 2048 ==> Valid()
      ensures data[0] == old(data[0])
      ensures modified == WithLowBits(old(modified), (2 + |EncodeAll(options)|) % HDR_ALLOC)
    {
      hide Holds, EncodeAll, Encode, Has, WithLowBits, LowBits, Poke, WellTyped, Appended;
      ghost var body, o := EncodeAll(options), Meant(r);
      HoldsParts(data[..], modified, options);
      var hoplen := data[1] as nat * HDR_ALLOC + LowBits(modified);
      var bytes := Encode(Meant(r));
      var optlen := |bytes|;
      ghost var was := data[..];
      Reserve(hoplen, optlen);
      assert data[..][2..hoplen] == body by {
        assert data[..hoplen][2..] == was[..hoplen][2..];
      }
      assert data[0] == was[0] by {
        assert data[..hoplen][0] == was[..hoplen][0];
      }
      var used := hoplen + optlen;
      Append(hoplen, bytes, used / HDR_ALLOC % 0x100);
      UsedAgain(used);
      WithLowBitsIs(modified, used % 8);
      modified := WithLowBits(modified, used % HDR_ALLOC);
      EncodeAllAppends(options, o);
      options := options + [o];
      assert WellTyped(o);
      AppendedWhen(data[..], modified, options);
      if used < 2048 {
        AppendedIsHeld(data[..], modified, options);
      }
    }

    /** The options of do_opt. The flag is set even when the padding is then rejected. */
    method DoOpt(o: HopOption) returns (ok: bool)
      requires Valid() && Parsable(o)
      modifies this, data
      ensures data == old(data) || fresh(data)
      ensures ok == Accepted(o)
      ensures options == old(options) + (if ok then [Meant(RequestOf(o))] else [])
      ensures if ok then Appended(data[..], modified, options) && (2 + |EncodeAll(options)| < 2048 ==> Valid()) else Valid()
      ensures !ok ==> data == old(data) && data[..] == old(data[..])
      ensures data[0] == old(data[0])
      ensures Has(modified, FlagOf(o)) && Has(modified, HOP_MOD_NEXTHDR) == Has(old(modified), HOP_MOD_NEXTHDR)
    {
      hide EncodeAll, Encode, Has, LowBits, Meant, Poke, Holds, FlagOf, RequestOf, WithLowBits, WithFlag, Appended;
      ghost var flags := modified;
      HoldsWithFlag(data[..], modified, options, o);
      FlagIsSet(modified, o);
      modified := WithFlag(modified, o);
      if !Accepted(o) {
        return false;
      }
      AddOption(RequestOf(o));
      FlagStaysSet(flags, (2 + |EncodeAll(options)|) % HDR_ALLOC, o);
      ok := true;
    }
  }

  /** Six bytes of padding fill the first eight bytes exactly, and the header then claims sixteen. */
  lemma ExactFillClaimsTooMuch(next: char)
    ensures var h: seq<byte> := [0, 1, IPV6_TLV_PADN, 4, 0, 0, 0, 0];
      Holds(h, 0, [Tlv(IPV6_TLV_PADN, [0, 0, 0, 0])])
      && ClaimedLength(Finalized(h, 0, next)) == 16 && ParseHeader(Finalized(h, 0, next)) == Malformed
  {
    var h: seq<byte>, o := [0, 1, IPV6_TLV_PADN, 4, 0, 0, 0, 0], Tlv(IPV6_TLV_PADN, [0, 0, 0, 0]);
    assert EncodeAll([]) == [];
    assert [] + [o] == [o];
    EncodeAllAppends([], o);
    assert h[2..8] == Encode(o);
    assert Holds(h, 0, [o]);
    FinalizedParsesIff(h, 0, next, [o]);
    LengthIsRightIff(h, 0, next, [o]);
  }
}
