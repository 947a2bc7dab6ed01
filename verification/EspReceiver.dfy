/** The other end of an ESP tunnel that uses the xor modules: decrypt, check the ICV, strip IV and
padding (RFC 4303, section 3.4). */
module EspReceiver {
  import opened Bytes
  import opened SendipModule
  import opened Esp
  import Headers
  import XorAuth
  import XorCrypto

  /** What a security association fixes on both ends. */
  datatype Association = Association(crypto: Crypto, key: seq<byte>, ivlen: nat, icvlen: nat)

  datatype Opened = Rejected | Opened(spiAndSeq: seq<byte>, iv: seq<byte>, payload: seq<byte>, nexthdr: byte)

  /** The part behind the ESP header, decrypted. */
  function Decrypted(sa: Association, body: seq<byte>): (r: seq<byte>)
    ensures |r| == |body|
  {
    if sa.crypto.crypt then XorCrypto.Crypted(XorCrypto.KeyOf(sa.key), body) else body
  }

  /** The ICV at the end of the packet is the one computed over what it covers. */
  predicate Authentic(sa: Association, esp: seq<byte>, covered: seq<byte>, icv: seq<byte>)
  {
    sa.crypto.auth ==> |icv| > 0 && icv == XorAuth.Icv(XorCrypto.KeyOf(sa.key), |icv|, esp, covered)
  }

  /** Strips IV, padding and trailer. */
  function Stripped(sa: Association, esp: seq<byte>, covered: seq<byte>): Opened
  {
    if |covered| < sa.ivlen + 2 then Rejected
    else
      var padlen := covered[|covered| - 2] as nat;
      if |covered| < sa.ivlen + padlen + 2 then Rejected
      else Opened(esp, covered[..sa.ivlen], covered[sa.ivlen..|covered| - 2 - padlen], covered[|covered| - 1])
  }

  function Open(sa: Association, packet: seq<byte>): Opened
  {
    if |packet| < 8 + sa.icvlen then Rejected
    else
      var plain := Decrypted(sa, packet[8..]);
      var covered, icv := plain[..|plain| - sa.icvlen], plain[|plain| - sa.icvlen..];
      if Authentic(sa, packet[..8], covered, icv) then Stripped(sa, packet[..8], covered) else Rejected
  }

  function AssociationOf(crypto: Crypto, priv: Private): Association
    requires priv.EspPrivate?
  {
    Association(crypto, priv.key, priv.ivlen, priv.icvlen)
  }

  lemma DecryptsSealed(sa: Association, plain: seq<byte>)
    ensures Decrypted(sa, Sealed(sa.crypto, sa.key, plain)) == plain
  {
    XorCrypto.CryptedTwice(XorCrypto.KeyOf(sa.key), plain);
  }

  lemma SealedIsAuthentic(sa: Association, given: seq<byte>, esp: seq<byte>, covered: seq<byte>)
    requires sa.crypto.auth ==> |given| > 0
    ensures Authentic(sa, esp, covered, SealedIcv(sa.crypto, sa.key, given, esp, covered))
  {
  }

  lemma StripsCovered(sa: Association, esp: seq<byte>, iv: seq<byte>, inside: seq<byte>, padlen: byte, nexthdr: byte)
    requires |iv| == sa.ivlen
    ensures Stripped(sa, esp, Covered(iv, inside, padlen, nexthdr)) == Opened(esp, iv, inside, nexthdr)
  {
    var covered := Covered(iv, inside, padlen, nexthdr);
    assert covered == (iv + inside) + (Zeros(padlen) + [padlen, nexthdr]);
    assert covered[..|iv|] == iv;
    assert covered[|iv|..|covered| - 2 - padlen as nat] == inside;
  }

  /** The round trip: for every key, IV, ICV, payload and padding the receiver accepts the packet
  and gets back SPI, sequence number, IV, payload and next header. */
  lemma OpensEncapsulated(crypto: Crypto, h: seq<byte>, modified: bv32, priv: Private, next: char, inside: seq<byte>)
    requires Fits(h, modified, priv)
    requires crypto.auth ==> priv.icvlen > 0
    ensures Open(AssociationOf(crypto, priv), Encapsulated(crypto, h, modified, priv, next, inside))
      == Opened(h[..8], Iv(h, priv), inside, NextHeader(h, modified, next))
  {
    hide Covered, Sealed, SealedIcv, Authentic, Stripped, Decrypted, PadLength, NextHeader;
    var sa, esp := AssociationOf(crypto, priv), h[..8];
    var padlen := PadLength(h, modified, priv.ivlen, |inside|);
    var covered := Covered(Iv(h, priv), inside, padlen, NextHeader(h, modified, next));
    var given := GivenIcv(h, priv);
    var icv := SealedIcv(crypto, priv.key, given, esp, covered);
    var packet := Encapsulated(crypto, h, modified, priv, next, inside);
    assert packet[..8] == esp && packet[8..] == Sealed(crypto, priv.key, covered + icv);
    DecryptsSealed(sa, covered + icv);
    assert (covered + icv)[..|covered|] == covered && (covered + icv)[|covered|..] == icv;
    SealedIsAuthentic(sa, given, esp, covered);
    StripsCovered(sa, esp, Iv(h, priv), inside, padlen, NextHeader(h, modified, next));
  }

  /** Changing one byte of the encrypted part changes exactly that byte of the decrypted part. */
  lemma DecryptsChanged(sa: Association, body: seq<byte>, at: nat, b: byte)
    requires at < |body| && b != body[at]
    ensures var plain, changed := Decrypted(sa, body), Decrypted(sa, body[at := b]);
      changed[at] != plain[at] && changed == plain[at := changed[at]]
  {
    hide Xor;
    if sa.crypto.crypt {
      var k := XorCrypto.KeyOf(sa.key);
      XorAuth.XorIsInjective(b, body[at], k[at % |k|]);
    }
  }

  /** What Open makes of a packet, from its parts. */
  lemma OpensParts(sa: Association, packet: seq<byte>, plain: seq<byte>)
    requires |packet| >= 8 + sa.icvlen && plain == Decrypted(sa, packet[8..])
    ensures var n := |plain| - sa.icvlen;
      Open(sa, packet) ==
        if Authentic(sa, packet[..8], plain[..n], plain[n..]) then Stripped(sa, packet[..8], plain[..n]) else Rejected
  {
  }

  /** With an authentication module, a packet that was accepted is rejected after any single byte
  of it has been changed: SPI, sequence number, encrypted payload or trailer, or ICV. */
  lemma TamperedIsRejected(sa: Association, packet: seq<byte>, at: nat, b: byte)
    requires sa.crypto.auth && Open(sa, packet).Opened?
    requires at < |packet| && b != packet[at]
    ensures Open(sa, packet[at := b]) == Rejected
  {
    hide Open, Decrypted, Stripped, XorAuth.Icv;
    EnoughToOpen(sa, packet);
    var changed, plain := packet[at := b], Decrypted(sa, packet[8..]);
    var esp, n := packet[..8], |plain| - sa.icvlen;
    OpensParts(sa, packet, plain);
    var covered, icv := plain[..n], plain[n..];
    var k := XorCrypto.KeyOf(sa.key);
    if at < 8 {
      assert changed[8..] == packet[8..] && changed[..8] == esp[at := b];
      OpensParts(sa, changed, plain);
      XorAuth.IcvDetects(k, |icv|, esp, covered, at, b);
    } else {
      var p := at - 8;
      assert changed[8..] == packet[8..][p := b] && changed[..8] == esp;
      DecryptsChanged(sa, packet[8..], p, b);
      var plain' := Decrypted(sa, changed[8..]);
      OpensParts(sa, changed, plain');
      if p < n {
        assert plain'[..n] == covered[p := plain'[p]] && plain'[n..] == icv;
        XorAuth.IcvDetects(k, |icv|, esp, covered, p, plain'[p]);
      } else {
        assert plain'[..n] == covered && plain'[n..][p - n] != icv[p - n];
      }
    }
  }

  lemma EnoughToOpen(sa: Association, packet: seq<byte>)
    requires Open(sa, packet).Opened?
    ensures |packet| >= 8 + sa.icvlen
  {
  }

  /** Automatic padding completes the trailer to 32-bit words (RFC 4303, section 2.4). */
  lemma AutomaticPaddingAligns(h: seq<byte>, modified: bv32, priv: Private, inside: seq<byte>, nexthdr: byte)
    requires Fits(h, modified, priv) && !Has(modified, ESP_MOD_PADDING)
    ensures |Covered(Iv(h, priv), inside, PadLength(h, modified, priv.ivlen, |inside|), nexthdr)| % 4 == 0
    ensures PadLength(h, modified, priv.ivlen, |inside|) <= 3
  {
  }

  /** Without encryption the payload stands behind the IV, and before the ICV stand pad length and
  next header. */
  lemma PlainLayout(crypto: Crypto, h: seq<byte>, modified: bv32, priv: Private, next: char, inside: seq<byte>)
    requires Fits(h, modified, priv) && !crypto.crypt
    requires crypto.auth ==> priv.icvlen > 0
    ensures var packet := Encapsulated(crypto, h, modified, priv, next, inside);
      && 8 + priv.ivlen + |inside| + 2 + priv.icvlen <= |packet|
      && packet[8 + priv.ivlen..8 + priv.ivlen + |inside|] == inside
      && packet[|packet| - priv.icvlen - 1] == NextHeader(h, modified, next)
      && |packet| == 8 + priv.ivlen + |inside| + packet[|packet| - priv.icvlen - 2] as nat + 2 + priv.icvlen
  {
    hide PadLength, NextHeader, SealedIcv, Has;
    var iv, padlen, nexthdr := Iv(h, priv), PadLength(h, modified, priv.ivlen, |inside|), NextHeader(h, modified, next);
    var covered := Covered(iv, inside, padlen, nexthdr);
    var icv := SealedIcv(crypto, priv.key, GivenIcv(h, priv), h[..8], covered);
    var packet := Encapsulated(crypto, h, modified, priv, next, inside);
    assert packet == (h[..8] + iv) + inside + (Zeros(padlen) + [padlen, nexthdr]) + icv;
  }

  /** The padding a sender uses when the algorithm asks for no other (RFC 4303, section 2.4). */
  function DefaultPadding(n: byte): (r: seq<byte>)
    ensures |r| == n
  {
    seq(n, k requires 0 <= k < n => k + 1)
  }

  /** The padding sent is zero, so it is the default one exactly when there is none. */
  lemma PaddingIsDefaultIff(iv: seq<byte>, inside: seq<byte>, padlen: byte, nexthdr: byte)
    ensures var covered := Covered(iv, inside, padlen, nexthdr);
      covered[|iv| + |inside|..|covered| - 2] == DefaultPadding(padlen) <==> padlen == 0
  {
    var covered := Covered(iv, inside, padlen, nexthdr);
    var sent := covered[|iv| + |inside|..|covered| - 2];
    assert |sent| == padlen;
    if padlen > 0 {
      assert sent[0] == covered[|iv| + |inside|] == 0 && DefaultPadding(padlen)[0] == 1;
    }
  }

  /** An empty payload without IV: its automatic padding is 0, 0, not 1, 2. */
  lemma EmptyPayloadIsPaddedWithZeros(h: seq<byte>, nexthdr: byte)
    requires |h| >= IVICV
    ensures PadLength(h, 0, 0, 0) == 2
    ensures Covered([], [], 2, nexthdr)[..2] == [0, 0] && DefaultPadding(2) == [1, 2]
  {
    assert Zeros(2) == [0, 0];
  }

  // ----- what the key does, and what the trailer says

  /** Everything behind the ESP header before it is encrypted. */
  function PlainPart(crypto: Crypto, h: seq<byte>, modified: bv32, priv: Private, next: char, inside: seq<byte>): seq<byte>
    requires Fits(h, modified, priv) && (crypto.auth ==> priv.icvlen > 0)
  {
    var covered := Covered(Iv(h, priv), inside, PadLength(h, modified, priv.ivlen, |inside|), NextHeader(h, modified, next));
    covered + SealedIcv(crypto, priv.key, GivenIcv(h, priv), h[..8], covered)
  }

  lemma BodyIsSealed(crypto: Crypto, h: seq<byte>, modified: bv32, priv: Private, next: char, inside: seq<byte>)
    requires Fits(h, modified, priv) && (crypto.auth ==> priv.icvlen > 0)
    ensures var packet, plain := Encapsulated(crypto, h, modified, priv, next, inside), PlainPart(crypto, h, modified, priv, next, inside);
      |packet| == 8 + |plain| && packet[..8] == h[..8] && packet[8..] == Sealed(crypto, priv.key, plain)
  {
    hide Covered, Sealed, SealedIcv, PadLength, NextHeader;
  }

  /** Byte d of a key that is repeated as often as needed; without a key nothing is added. */
  function KeyByte(key: seq<byte>, d: nat): byte
  {
    if |key| == 0 then 0 else key[d % |key|]
  }

  lemma KeyByteIs(key: seq<byte>, d: nat)
    ensures XorCrypto.KeyOf(key)[d % |XorCrypto.KeyOf(key)|] == KeyByte(key, d)
  {
  }

  /** An ESP packet shows what it carries exactly when there is no encryption, or no key, or one of
  zeros as far as the packet goes. */
  lemma SentInClearIff(crypto: Crypto, h: seq<byte>, modified: bv32, priv: Private, next: char, inside: seq<byte>)
    requires Fits(h, modified, priv) && (crypto.auth ==> priv.icvlen > 0)
    ensures var packet := Encapsulated(crypto, h, modified, priv, next, inside);
      packet[8..] == PlainPart(crypto, h, modified, priv, next, inside)
      <==> !crypto.crypt || forall d :: 0 <= d < |packet| - 8 ==> KeyByte(priv.key, d) == 0
  {
    hide Encapsulated, PlainPart, XorCrypto.Crypted, XorCrypto.KeyOf, KeyByte;
    BodyIsSealed(crypto, h, modified, priv, next, inside);
    var plain, k := PlainPart(crypto, h, modified, priv, next, inside), XorCrypto.KeyOf(priv.key);
    forall d | 0 <= d < |plain| ensures XorCrypto.Crypted(k, plain)[d] == plain[d] <==> KeyByte(priv.key, d) == 0 {
      XorCrypto.CryptedKeepsIff(k, plain, d);
      KeyByteIs(priv.key, d);
    }
    assert |XorCrypto.Crypted(k, plain)| == |plain|;
  }

  /** Decrypting with another key gives what was encrypted exactly when both keys agree, repeated, as
  far as the packet goes. */
  lemma OtherKeyOpensIff(crypto: Crypto, h: seq<byte>, modified: bv32, priv: Private, next: char, inside: seq<byte>, key: seq<byte>)
    requires Fits(h, modified, priv) && (crypto.auth ==> priv.icvlen > 0) && crypto.crypt
    ensures var packet := Encapsulated(crypto, h, modified, priv, next, inside);
      Decrypted(AssociationOf(crypto, priv.(key := key)), packet[8..]) == PlainPart(crypto, h, modified, priv, next, inside)
      <==> forall d :: 0 <= d < |packet| - 8 ==> KeyByte(priv.key, d) == KeyByte(key, d)
  {
    hide Encapsulated, PlainPart, XorCrypto.Crypted, XorCrypto.KeyOf, KeyByte;
    BodyIsSealed(crypto, h, modified, priv, next, inside);
    forall d | 0 <= d < |Encapsulated(crypto, h, modified, priv, next, inside)| - 8
      ensures XorCrypto.KeyOf(priv.key)[d % |XorCrypto.KeyOf(priv.key)|] == KeyByte(priv.key, d)
      ensures XorCrypto.KeyOf(key)[d % |XorCrypto.KeyOf(key)|] == KeyByte(key, d)
    {
      KeyByteIs(priv.key, d);
      KeyByteIs(key, d);
    }
    XorCrypto.OpensWithIff(XorCrypto.KeyOf(priv.key), XorCrypto.KeyOf(key), PlainPart(crypto, h, modified, priv, next, inside));
  }

  /** Without an authentication module the ICV that was given is sent. */
  lemma GivenIcvIsSent(crypto: Crypto, h: seq<byte>, modified: bv32, priv: Private, next: char, inside: seq<byte>)
    requires Fits(h, modified, priv) && !crypto.auth && priv.icvlen > 0
    ensures var packet := Encapsulated(crypto, h, modified, priv, next, inside);
      var plain := Decrypted(AssociationOf(crypto, priv), packet[8..]);
      && |plain| >= priv.icvlen
      && 12 + 4 * priv.ivlen + priv.icvlen <= |h|
      && plain[|plain| - priv.icvlen..] == h[12 + 4 * priv.ivlen..12 + 4 * priv.ivlen + priv.icvlen]
  {
    hide Encapsulated, Covered, Sealed, Decrypted, PadLength, NextHeader;
    BodyIsSealed(crypto, h, modified, priv, next, inside);
    var plain := PlainPart(crypto, h, modified, priv, next, inside);
    DecryptsSealed(AssociationOf(crypto, priv), plain);
  }

  /** The length of the packet tells the padding: what was given, or what completes the words. */
  lemma PadsAsGiven(crypto: Crypto, h: seq<byte>, modified: bv32, priv: Private, next: char, inside: seq<byte>)
    requires Fits(h, modified, priv) && (crypto.auth ==> priv.icvlen > 0)
    ensures var n := |Encapsulated(crypto, h, modified, priv, next, inside)| - (10 + priv.ivlen + |inside| + priv.icvlen);
      if Has(modified, ESP_MOD_PADDING) then n == h[8] else 0 <= n <= 3 && (priv.ivlen + |inside| + n + 2) % 4 == 0
  {
    hide Encapsulated, Sealed, SealedIcv, NextHeader, Has;
    BodyIsSealed(crypto, h, modified, priv, next, inside);
  }

  /** The next header the receiver finds: what was given, or the assigned number of what follows. */
  lemma NamesWhatFollows(crypto: Crypto, h: seq<byte>, modified: bv32, priv: Private, next: char, inside: seq<byte>)
    requires Fits(h, modified, priv) && (crypto.auth ==> priv.icvlen > 0)
    ensures var o := Open(AssociationOf(crypto, priv), Encapsulated(crypto, h, modified, priv, next, inside));
      && o.Opened? && o.payload == inside
      && o.nexthdr == if Has(modified, ESP_MOD_NEXTHDR) then h[9] else Headers.ProtocolOf(next)
  {
    hide Encapsulated, Open, Has, Headers.ProtocolOf;
    OpensEncapsulated(crypto, h, modified, priv, next, inside);
  }
}
