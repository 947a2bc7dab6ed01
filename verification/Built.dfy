/** From the options to the packet: what the header builders promise is what the assembly, the
receiver and the walk ask of a header. */
module Built {
  import opened Bytes
  import opened Encapsulation
  import opened Peeling
  import opened SendipModule
  import opened Wrappers
  import Ah
  import Chain
  import Esp
  import EspOptions
  import Fields
  import Gre
  import GreOptions
  import Hop
  import HopOptions
  import Route
  import Walk

  /** A hop-by-hop or destination header built from options tells its length, and can be walked,
  exactly when the options do not fill the allocation. */
  lemma OptionsTellIff(l: Layer, os: seq<HopOptions.Tlv>)
    requires l.kind in "Hd" && HopOptions.Holds(l.bytes, l.modified, os) && |l.bytes| <= 2048
    ensures |l.bytes| >= Smallest(l.kind)
    ensures TellsLength(l) <==> Hop.Used(l.bytes, l.modified) != |l.bytes|
    ensures Walk.Tidy(l)
      <==> !Has(l.modified, Hop.HOP_MOD_NEXTHDR) && Hop.Used(l.bytes, l.modified) != |l.bytes|
  {
    hide HopOptions.Holds, Has, Hop.Used;
    HopOptions.HoldsBounds(l.bytes, l.modified, os);
    WholeUnits(l.bytes, l.modified, os);
  }

  lemma WholeUnits(h: seq<byte>, modified: bv32, os: seq<HopOptions.Tlv>)
    requires HopOptions.Holds(h, modified, os)
    ensures |h| % 8 == 0
  {
  }

  /** An authentication header whose data was given by -ad. */
  lemma AuthDataTellsIff(l: Layer, h: seq<byte>, auth: seq<byte>)
    requires l.kind == 'a' && |h| >= Ah.AH_HEADER && l.bytes == Ah.WithAuthData(h, auth)
    ensures TellsLength(l) <==> |auth| % 4 == 0 && |auth| <= 1016
    ensures Walk.Tidy(l) <==> !Has(l.modified, Chain.AH_MOD_NEXTHDR) && |auth| % 4 == 0 && |auth| <= 1016
  {
    hide Ah.WithAuthData, Has;
    Ah.LengthIsRightIff(h, auth);
  }

  /** A routing header whose addresses were given by -oa. */
  lemma AddressesTellIff(l: Layer, h: seq<byte>, addrs: seq<Route.Address>)
    requires l.kind == 'o' && |h| >= Route.ROUTE_HEADER && |addrs| <= Route.ADDRMAX
    requires l.bytes == Route.WithAddresses(h, addrs)
    ensures TellsLength(l) <==> addrs == []
    ensures Walk.Tidy(l) <==> !Has(l.modified, Chain.ROUTE_MOD_NEXTHDR) && addrs == []
  {
    hide Route.WithAddresses, Has;
    Route.LengthIsRightIff(h, addrs);
  }

  /** An ESP header built from options is one the assembly takes, and the receiver opens, exactly
  when an authentication module finds an ICV to fill in; without one xoricv divides by zero. */
  lemma EspIsOkIff(crypto: Esp.Crypto, l: Layer, iv: seq<byte>, icv: seq<byte>)
    requires l.kind == 'e' && EspOptions.Holds(l.bytes, l.priv, iv, icv)
    ensures LayerOk(crypto, l) <==> !crypto.auth || icv != []
    ensures |l.bytes| >= Smallest('e') && TellsLength(l)
  {
    hide EspOptions.Holds, Has, Esp.Fits;
    EspOptions.HoldsParts(l.bytes, l.priv, iv, icv);
    EspOptions.HeldIsReady(l.bytes, l.modified, l.priv, iv, icv);
  }

  /** An ESP header without options is not ready for an authentication module. */
  lemma FreshEspHasNoIcv(crypt: bool)
    ensures !LayerOk(Esp.Crypto(true, crypt), Layer('e', Zeros(16), 0, EspPrivate(0, 0, []), 0))
  {
    hide Esp.Fits;
    assert EspOptions.Holds(Zeros(16), EspPrivate(0, 0, []), [], []);
    EspIsOkIff(Esp.Crypto(true, crypt), Layer('e', Zeros(16), 0, EspPrivate(0, 0, []), 0), [], []);
  }

  /** The words of a GRE header built from options: flags and protocol, the slots, and the word too
  many that gre_header starts with. */
  predicate GreBuilt(l: Layer, st: GreOptions.State, head: GreOptions.Word32, tail: GreOptions.Word32)
  {
    && l.kind == 'g' && GreOptions.Sized(st) && GreOptions.FlagsIn(head[0]) == st.flags
    && l.bytes == GreOptions.Flat([head] + st.slots + [tail])
  }

  lemma {:induction false} FlatEnds(words: seq<GreOptions.Word32>)
    requires |words| > 0
    ensures GreOptions.Flat(words)[4 * (|words| - 1)..] == words[|words| - 1]
    ensures GreOptions.Flat(words)[0] == words[0][0]
  {
    if |words| == 1 {
      assert GreOptions.Flat(words[1..]) == [];
    } else {
      FlatEnds(words[1..]);
      SliceOfSuffix(GreOptions.Flat(words), 4, 4 * (|words| - 2), 4 * (|words| - 1));
      PartsOfSum(words[0], GreOptions.Flat(words[1..]));
    }
  }

  /** Finalize does not touch the last word of such a header: a checksum has a slot of its own. */
  lemma LastWordStays(h: seq<byte>, modified: bv32, innerIp: char, inside: seq<byte>)
    requires |h| >= 8 && (GreOptions.FlagsIn(h[0]).csum ==> |h| >= 12)
    ensures var f := Gre.Finalized(h, modified, innerIp, inside);
      f[0] == h[0] && f[|h| - 4..] == h[|h| - 4..]
  {
    hide Gre.Finalized, Has, Gre.Flag;
    Fields.GreReads(h, modified, innerIp, inside);
    var f := Gre.Finalized(h, modified, innerIp, inside);
    if |h| >= 10 {
      SliceOfSuffix(f, 6, |h| - 10, |h| - 10);
      SliceOfSuffix(h, 6, |h| - 10, |h| - 10);
    } else {
      forall k | |h| - 4 <= k < |h| ensures f[k] == h[k] {
        if k >= 6 {
          assert f[k] == f[6..][k - 6] == h[6..][k - 6];
        }
      }
    }
  }

  /** A receiver ends the header after the fields its flags announce, so whatever the options were
  he takes the word too many for the start of the payload. */
  lemma GrePayloadIsDisplaced(crypto: Esp.Crypto, ls: seq<Layer>, i: nat, st: GreOptions.State,
                              head: GreOptions.Word32, tail: GreOptions.Word32, inside: seq<byte>)
    requires Sound(crypto, ls) && i < |ls| && GreBuilt(ls[i], st, head, tail)
    ensures Peel(crypto, 'g', ls[i].priv, Wrap(crypto, ls, i, inside)) == Some(tail + inside)
    ensures |ls[i].bytes| >= 8 && !TellsLength(ls[i])
  {
    hide Sound, Seen, FinishedHeader, GreOptions.Flat, GreOptions.Size, GreOptions.FlagsIn, InnerIp, Gre.Finalized, Has;
    LayerIsOk(crypto, ls, i);
    var h, words := ls[i].bytes, [head] + st.slots + [tail];
    FlatEnds(words);
    assert words[0] == head && words[|words| - 1] == tail;
    SizeOfFlags(st.flags);
    LastWordStays(h, ls[i].modified, InnerIp(crypto, ls, i), inside);
    FinishedGre(crypto, ls, i, inside);
    var f := Gre.Finalized(h, ls[i].modified, InnerIp(crypto, ls, i), inside);
    var n := |h| - 4;
    assert f + inside == f[..n] + (f[n..] + inside);
    PartsOfSum(f[..n], f[n..] + inside);
  }

  lemma SizeOfFlags(f: GreOptions.Flags)
    ensures f.csum ==> GreOptions.Size(f) >= 1
  {
  }

  lemma FinishedGre(crypto: Esp.Crypto, ls: seq<Layer>, i: nat, inside: seq<byte>)
    requires Sound(crypto, ls) && i < |ls| && ls[i].kind == 'g'
    ensures |ls[i].bytes| >= 8
    ensures Wrap(crypto, ls, i, inside)
      == Gre.Finalized(ls[i].bytes, ls[i].modified, InnerIp(crypto, ls, i), inside) + inside
  {
    hide Sound, Seen, InnerIp, Gre.Finalized;
    LayerIsOk(crypto, ls, i);
    SeenUnclaimed(crypto, ls, i, i + 1);
  }
}
