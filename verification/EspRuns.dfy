/** Whole runs of ESP options: what was given last is what the receiver finds. */
module EspRuns {
  import opened Bytes
  import opened EspOptions
  import opened SendipModule
  import opened Wrappers
  import Esp
  import EspReceiver
  import Headers

  /** The SPI given last. */
  function LastSpi(os: seq<Option>): Maybe<seq<byte>>
  {
    if |os| == 0 then None else if os[|os| - 1].Spi? then Some(os[|os| - 1].spi) else LastSpi(os[..|os| - 1])
  }

  function LastSequence(os: seq<Option>): Maybe<seq<byte>>
  {
    if |os| == 0 then None else if os[|os| - 1].Sequence? then Some(os[|os| - 1].seqNo) else LastSequence(os[..|os| - 1])
  }

  /** The padding given last, of those that a byte can count. */
  function LastPadding(os: seq<Option>): Maybe<nat>
  {
    if |os| == 0 then None
    else
      var last := os[|os| - 1];
      if last.Padding? && last.length <= 255 then Some(last.length) else LastPadding(os[..|os| - 1])
  }

  function LastNextHeader(os: seq<Option>): Maybe<byte>
  {
    if |os| == 0 then None else if os[|os| - 1].NextHdr? then Some(os[|os| - 1].proto) else LastNextHeader(os[..|os| - 1])
  }

  function Or<T>(m: Maybe<T>, otherwise: T): T
  {
    if m.Some? then m.value else otherwise
  }

  /** Every option was accepted. */
  predicate Accepted(os: seq<Option>)
  {
    forall k :: 0 <= k < |os| ==> os[k].Padding? ==> os[k].length <= 255
  }

  /** Where what was given last stands in the header. */
  lemma {:induction false} FixedAllIs(os: seq<Option>)
    ensures var h := FixedAll(os);
      && h[0..4] == Or(LastSpi(os), Zeros(4)) && h[4..8] == Or(LastSequence(os), Zeros(4))
      && h[8] as nat == Or(LastPadding(os), 0) && h[9] == Or(LastNextHeader(os), 0)
  {
    hide Fixed;
    if |os| > 0 {
      var front, last := os[..|os| - 1], os[|os| - 1];
      FixedAllIs(front);
      if !(last.Padding? && last.length > OCTET_MAX) {
        FixedIs(FixedAll(front), last);
      }
    }
  }

  lemma FixedIs(h: seq<byte>, opt: Option)
    requires |h| == 10 && (opt.Padding? ==> opt.length <= OCTET_MAX)
    ensures var r := Fixed(h, opt);
      && r[0..4] == (if opt.Spi? then opt.spi else h[0..4]) && r[4..8] == (if opt.Sequence? then opt.seqNo else h[4..8])
      && r[8] as nat == (if opt.Padding? then opt.length else h[8] as nat) && r[9] == (if opt.NextHdr? then opt.proto else h[9])
  {
  }

  /** The flags that finalize looks at. */
  lemma {:induction false} FlagsAllIs(os: seq<Option>)
    requires Accepted(os)
    ensures Has(FlagsAll(os), Esp.ESP_MOD_PADDING) <==> LastPadding(os).Some?
    ensures Has(FlagsAll(os), Esp.ESP_MOD_NEXTHDR) <==> LastNextHeader(os).Some?
  {
    hide FlagOf, Has, FlagsAll;
    FlagsStep(os, Esp.ESP_MOD_PADDING);
    FlagsStep(os, Esp.ESP_MOD_NEXTHDR);
    if |os| > 0 {
      FlagsAllIs(os[..|os| - 1]);
      FlagOfIs(os[|os| - 1]);
    }
  }

  lemma FlagsStep(os: seq<Option>, bit: bv32)
    ensures |os| == 0 ==> !Has(FlagsAll(os), bit)
    ensures |os| > 0 ==>
      (Has(FlagsAll(os), bit) <==> Has(FlagsAll(os[..|os| - 1]), bit) || Has(FlagOf(os[|os| - 1]), bit))
  {
    hide Has, FlagOf;
    HasNothing(bit);
    if |os| > 0 {
      var front, last := os[..|os| - 1], os[|os| - 1];
      HasEither(FlagsAll(front), FlagOf(last), WithFlag(FlagsAll(front), last), bit);
    }
  }

  lemma FlagOfIs(opt: Option)
    ensures Has(FlagOf(opt), Esp.ESP_MOD_PADDING) <==> opt.Padding?
    ensures Has(FlagOf(opt), Esp.ESP_MOD_NEXTHDR) <==> opt.NextHdr?
  {
  }

  /** From the options to the other end, whatever was given in whatever order and how often: the
  receiver finds the SPI and the sequence number given last, or zeros; the IV; the payload; and as
  next header the one given last, or else the number of what follows. The padding is what was asked
  for last, or else what completes the words. */
  lemma OptionsArrive(crypto: Esp.Crypto, os: seq<Option>, h: seq<byte>, priv: Private, iv: seq<byte>, icv: seq<byte>,
                      next: char, inside: seq<byte>)
    requires Accepted(os) && Holds(h, priv, iv, icv) && (crypto.auth ==> |icv| > 0)
    requires |h| >= 10 && h[..10] == FixedAll(os)
    ensures Esp.Fits(h, FlagsAll(os), priv)
    ensures var packet := Esp.Encapsulated(crypto, h, FlagsAll(os), priv, next, inside);
      && EspReceiver.Open(EspReceiver.AssociationOf(crypto, priv), packet)
         == EspReceiver.Opened(Or(LastSpi(os), Zeros(4)) + Or(LastSequence(os), Zeros(4)), iv, inside,
                               Or(LastNextHeader(os), Headers.ProtocolOf(next)))
      && var n := |packet| - (10 + |iv| + |inside| + |icv|);
         if LastPadding(os).Some? then n == LastPadding(os).value
         else 0 <= n <= 3 && (|iv| + |inside| + n + 2) % 4 == 0
  {
    hide Holds, Esp.Fits, Esp.Encapsulated, EspReceiver.Open, FixedAll, FlagsAll, LastSpi, LastSequence, LastPadding,
         LastNextHeader, Has, Headers.ProtocolOf;
    HeldIsReady(h, FlagsAll(os), priv, iv, icv);
    HeldLengths(h, priv, iv, icv);
    FixedAllIs(os);
    FlagsAllIs(os);
    EspReceiver.OpensEncapsulated(crypto, h, FlagsAll(os), priv, next, inside);
    EspReceiver.PadsAsGiven(crypto, h, FlagsAll(os), priv, next, inside);
    FrontBytes(h, FixedAll(os));
  }

  lemma HeldLengths(h: seq<byte>, priv: Private, iv: seq<byte>, icv: seq<byte>)
    requires Holds(h, priv, iv, icv)
    ensures priv.EspPrivate? && priv.ivlen == |iv| && priv.icvlen == |icv| && |h| >= 12
  {
  }

  lemma FrontBytes(h: seq<byte>, f: seq<byte>)
    requires |h| >= 10 && |f| == 10 && h[..10] == f
    ensures h[..8] == f[0..4] + f[4..8] && h[8] == f[8] && h[9] == f[9]
  {
    PrefixOfPrefix(h, f, 10, 8);
    assert f[..10] == f;
    SliceSplits(f, 0, 4, 8);
    assert f[8] == h[..10][8] && f[9] == h[..10][9];
  }
}
