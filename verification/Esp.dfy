/** The finalizer of esp.c: padding, moving the trailer behind the payload, trimming, and the
calls of the authentication and encryption modules. */
module Esp {
  import opened Bytes
  import opened Headers
  import opened SendipModule
  import XorAuth
  import XorCrypto

  const ESP_MOD_PADDING: bv32 := 4
  const ESP_MOD_NEXTHDR: bv32 := 8

  /** Which crypto modules are loaded; the source keeps them in globals shared by all ESP headers. */
  datatype Crypto = Crypto(auth: bool, crypt: bool)

  // ----- the oversized header before finalize: SPI, sequence number, pad length, next header,
  // two bytes of alignment, then IV and ICV

  const IVICV: nat := 12

  /** Where the ICV waits: do_opt counts the IV length in 32-bit units here. */
  function IcvOffset(ivlen: nat): nat
  {
    IVICV + 4 * ivlen
  }

  /** The padding that completes IV, payload, pad length and next header to 32-bit words. */
  function AutoPad(inside: nat, ivlen: nat): (p: nat)
    ensures p <= 3 && (ivlen + inside + p + 2) % 4 == 0
  {
    (6 - (inside + ivlen) % 4) % 4
  }

  function PadLength(h: seq<byte>, modified: bv32, ivlen: nat, inside: nat): (p: byte)
    requires |h| >= IVICV
  {
    if Has(modified, ESP_MOD_PADDING) then h[8] else AutoPad(inside, ivlen)
  }

  function NextHeader(h: seq<byte>, modified: bv32, next: char): byte
    requires |h| >= IVICV
  {
    if Has(modified, ESP_MOD_NEXTHDR) then h[9] else ProtocolOf(next)
  }

  /** The header is large enough for its trailer, and its IV and ICV lie inside it. */
  predicate Fits(h: seq<byte>, modified: bv32, priv: Private)
  {
    && priv.EspPrivate?
    && |h| >= IVICV + priv.ivlen
    && |h| >= 10 + priv.ivlen + priv.icvlen + (if Has(modified, ESP_MOD_PADDING) && |h| > 8 then h[8] else 3)
    && (priv.icvlen > 0 ==> IcvOffset(priv.ivlen) + priv.icvlen <= |h|)
  }

  function Iv(h: seq<byte>, priv: Private): seq<byte>
    requires priv.EspPrivate? && |h| >= IVICV + priv.ivlen
  {
    h[IVICV..IVICV + priv.ivlen]
  }

  function GivenIcv(h: seq<byte>, priv: Private): (r: seq<byte>)
    requires priv.EspPrivate? && (priv.icvlen > 0 ==> IcvOffset(priv.ivlen) + priv.icvlen <= |h|)
    ensures |r| == priv.icvlen
  {
    if priv.icvlen == 0 then [] else h[IcvOffset(priv.ivlen)..IcvOffset(priv.ivlen) + priv.icvlen]
  }

  // ----- the packet as RFC 4303 lays it out, with zeros for padding

  /** Everything the ICV covers after the ESP header: IV, payload, padding, pad length, next header. */
  function Covered(iv: seq<byte>, inside: seq<byte>, padlen: byte, nexthdr: byte): (r: seq<byte>)
    ensures |r| == |iv| + |inside| + padlen as nat + 2
  {
    iv + inside + Zeros(padlen) + [padlen, nexthdr]
  }

  /** The ICV: the given one, or what the authentication module puts in its place. */
  function SealedIcv(crypto: Crypto, key: seq<byte>, given: seq<byte>, esp: seq<byte>, covered: seq<byte>): (r: seq<byte>)
    requires crypto.auth ==> |given| > 0
    ensures |r| == |given|
  {
    if crypto.auth then XorAuth.Icv(XorCrypto.KeyOf(key), |given|, esp, covered) else given
  }

  function Sealed(crypto: Crypto, key: seq<byte>, plain: seq<byte>): (r: seq<byte>)
    ensures |r| == |plain|
  {
    if crypto.crypt then XorCrypto.Crypted(XorCrypto.KeyOf(key), plain) else plain
  }

  /** The finished ESP packet: header, IV, payload, padding, pad length, next header, ICV, with
  everything after the header encrypted if an encryption module is loaded. */
  function Encapsulated(crypto: Crypto, h: seq<byte>, modified: bv32, priv: Private, next: char, inside: seq<byte>): (r: seq<byte>)
    requires Fits(h, modified, priv)
    requires crypto.auth ==> priv.icvlen > 0
    ensures 8 < |r| <= |h| + |inside|
  {
    var padlen := PadLength(h, modified, priv.ivlen, |inside|);
    var covered := Covered(Iv(h, priv), inside, padlen, NextHeader(h, modified, next));
    var icv := SealedIcv(crypto, priv.key, GivenIcv(h, priv), h[..8], covered);
    h[..8] + Sealed(crypto, priv.key, covered + icv)
  }

  // ----- finalize

  method FillPadLength(data: SendipData, pack: SendipData) returns (padlen: byte)
    requires pack.Within() && pack.allocLen >= IVICV && pack.priv.EspPrivate?
    ensures padlen == PadLength(pack.Contents(), pack.modified, pack.priv.ivlen, data.allocLen)
  {
    if !Has(pack.modified, ESP_MOD_PADDING) {
      padlen := (6 - (data.allocLen + pack.priv.ivlen) % 4) % 4;
    } else {
      padlen := pack.data[pack.start + 8];
    }
  }

  method FillNextHeader(hdrs: string, index: nat, pack: SendipData) returns (nexthdr: byte)
    requires pack.Within() && pack.allocLen >= IVICV
    ensures nexthdr == NextHeader(pack.Contents(), pack.modified, CharAt(hdrs, index + 1))
  {
    if !Has(pack.modified, ESP_MOD_NEXTHDR) {
      nexthdr := HeaderType(CharAt(hdrs, index + 1));
    } else {
      nexthdr := pack.data[pack.start + 9];
    }
  }

  /** Writes `more` where the last write ended; what is written so far starts at `start`. */
  method Append(buf: array<byte>, start: nat, ghost written: seq<byte>, pos: nat, more: seq<byte>, ghost was: seq<byte>)
    returns (after: nat)
    requires |was| == buf.Length && pos == start + |written| && pos + |more| <= buf.Length
    requires buf[..] == Poke(was, start, written)
    modifies buf
    ensures after == pos + |more|
    ensures buf[..] == Poke(was, start, written + more)
  {
    Put(buf, pos, more);
    PokeAppends(was, start, written, more);
    after := pos + |more|;
  }

  /** Moves the payload to where the last write ended. */
  method AppendPayload(buf: array<byte>, start: nat, ghost written: seq<byte>, pos: nat, data: nat, len: nat, ghost was: seq<byte>)
    returns (after: nat)
    requires |was| == buf.Length && pos == start + |written| && pos <= data && data + len <= buf.Length
    requires buf[..] == Poke(was, start, written)
    modifies buf
    ensures after == pos + len
    ensures buf[..] == Poke(was, start, written + was[data..data + len])
  {
    PokedAfter(buf[..], was, start, written, data, len);
    Move(buf, pos, data, len);
    PokeAppends(was, start, written, was[data..data + len]);
    after := pos + len;
  }

  lemma PokedAfter(s: seq<byte>, was: seq<byte>, start: nat, t: seq<byte>, from: nat, n: nat)
    requires start + |t| <= from && from + n <= |was| && s == Poke(was, start, t)
    ensures s[from..from + n] == was[from..from + n]
  {
  }

  /** Lays the packet out: the parts of esp.c from "Now fill out the packet" on. */
  method LayOut(buf: array<byte>, start: nat, len: nat, iv: seq<byte>, icv: seq<byte>, padlen: byte, nexthdr: byte, inside: nat)
    requires start + len + inside <= buf.Length && 8 + |iv| <= len
    requires 10 + |iv| + padlen as nat + |icv| <= len
    modifies buf
    ensures buf[..] == Poke(old(buf[..]), start, old(buf[start..start + 8])
      + (Covered(iv, old(buf[start + len..start + len + inside]), padlen, nexthdr) + icv))
  {
    hide Poke;
    ghost var was := buf[..];
    ghost var esp, payload := was[start..start + 8], was[start + len..start + len + inside];
    PokeSame(was, start, 8);
    var w := start + 8;
    w := Append(buf, start, esp, w, iv, was);
    w := AppendPayload(buf, start, esp + iv, w, start + len, inside, was);
    w := Append(buf, start, esp + iv + payload, w, Zeros(padlen), was);
    w := Append(buf, start, esp + iv + payload + Zeros(padlen), w, [padlen, nexthdr], was);
    w := Append(buf, start, esp + iv + payload + Zeros(padlen) + [padlen, nexthdr], w, icv, was);
    assert esp + iv + payload + Zeros(padlen) + [padlen, nexthdr] + icv
      == esp + (Covered(iv, payload, padlen, nexthdr) + icv);
  }

  lemma PokedPrefix(s: seq<byte>, was: seq<byte>, start: nat, t: seq<byte>, u: seq<byte>)
    requires start + |t| + |u| <= |was| && s == Poke(was, start, t + u)
    ensures s[start..start + |t|] == t
    ensures s[start + |t|..start + |t| + |u|] == u
  {
    var m := s[start..start + |t| + |u|];
    assert m == t + u;
    assert s[start..start + |t|] == m[..|t|];
    assert s[start + |t|..start + |t| + |u|] == m[|t|..];
  }

  lemma PokeSuffix(was: seq<byte>, start: nat, t: seq<byte>, u: seq<byte>, v: seq<byte>)
    requires start + |t| + |u| <= |was| && |u| == |v|
    ensures Poke(Poke(was, start, t + u), start + |t|, v) == Poke(was, start, t + v)
  {
  }

  /** The authentication module on the laid-out packet: `esp` and `covered` are authenticated. */
  method Authenticate(buf: array<byte>, start: nat, key: seq<byte>, ghost was: seq<byte>,
                      ghost esp: seq<byte>, ghost covered: seq<byte>, ghost icv: seq<byte>, n: nat, icvlen: nat)
    requires |was| == buf.Length && |esp| == 8 && |covered| == n && |icv| == icvlen > 0 && |key| > 0
    requires start + 8 + n + icvlen <= buf.Length
    requires buf[..] == Poke(was, start, esp + (covered + icv))
    modifies buf
    ensures buf[..] == Poke(was, start, esp + (covered + XorAuth.Icv(key, icvlen, esp, covered)))
  {
    hide Poke, XorAuth.Icv;
    assert esp + (covered + icv) == (esp + covered) + icv;
    PokedPrefix(buf[..], was, start, esp, covered + icv);
    assert buf[start + 8..start + 8 + n] == buf[start + 8..start + 8 + n + icvlen][..n] == covered;
    XorAuth.ComputeIcv(key, buf, start + 8 + n, icvlen, start, 8, start + 8, n);
    ghost var fresh_icv := XorAuth.Icv(key, icvlen, esp, covered);
    PokeSuffix(was, start, esp + covered, icv, fresh_icv);
    assert esp + (covered + fresh_icv) == (esp + covered) + fresh_icv;
  }

  method Encipher(buf: array<byte>, start: nat, key: seq<byte>, ghost was: seq<byte>, ghost esp: seq<byte>, ghost plain: seq<byte>, n: nat)
    requires |was| == buf.Length && |esp| == 8 && |plain| == n && |key| > 0
    requires start + 8 + n <= buf.Length
    requires buf[..] == Poke(was, start, esp + plain)
    modifies buf
    ensures buf[..] == Poke(was, start, esp + XorCrypto.Crypted(key, plain))
  {
    hide Poke, XorCrypto.Crypted;
    PokedPrefix(buf[..], was, start, esp, plain);
    XorCrypto.Encrypt(key, buf, start + 8, n);
    PokeSuffix(was, start, esp, plain, XorCrypto.Crypted(key, plain));
  }

  /** Sets IV and ICV aside. */
  method SetAside(pack: SendipData) returns (iv: seq<byte>, icv: seq<byte>)
    requires pack.Within() && Fits(pack.Contents(), pack.modified, pack.priv)
    ensures iv == Iv(pack.Contents(), pack.priv)
    ensures icv == GivenIcv(pack.Contents(), pack.priv)
  {
    var esp, at, priv := pack.data, pack.start, pack.priv;
    ghost var end := at + pack.allocLen;
    SliceOfSlice(esp[..], at, end, IVICV, IVICV + priv.ivlen);
    iv := esp[at + IVICV..at + IVICV + priv.ivlen];
    if priv.icvlen == 0 {
      icv := [];
    } else {
      SliceOfSlice(esp[..], at, end, IcvOffset(priv.ivlen), IcvOffset(priv.ivlen) + priv.icvlen);
      icv := esp[at + IcvOffset(priv.ivlen)..at + IcvOffset(priv.ivlen) + priv.icvlen];
    }
  }

  /** Calls the authentication module and then the encryption module, if they are loaded. */
  method Protect(crypto: Crypto, buf: array<byte>, start: nat, key: seq<byte>, n: nat, icvlen: nat,
                 ghost was: seq<byte>, ghost esp: seq<byte>, ghost covered: seq<byte>, ghost icv: seq<byte>)
    requires |was| == buf.Length && |esp| == 8 && |covered| == n && |icv| == icvlen
    requires crypto.auth ==> icvlen > 0
    requires start + 8 + n + icvlen <= buf.Length
    requires buf[..] == Poke(was, start, esp + (covered + icv))
    modifies buf
    ensures buf[..] == Poke(was, start,
      esp + Sealed(crypto, key, covered + SealedIcv(crypto, key, icv, esp, covered)))
  {
    hide Poke, XorAuth.Icv, XorCrypto.Crypted;
    var k := XorCrypto.KeyOf(key);
    ghost var last := icv;
    if crypto.auth {
      Authenticate(buf, start, k, was, esp, covered, icv, n, icvlen);
      last := XorAuth.Icv(k, icvlen, esp, covered);
    }
    if crypto.crypt {
      Encipher(buf, start, k, was, esp, covered + last, n + icvlen);
    }
  }

  /** The packet laid out and protected in place. */
  method Seal(crypto: Crypto, buf: array<byte>, start: nat, len: nat, inside: nat, key: seq<byte>,
              iv: seq<byte>, icv: seq<byte>, padlen: byte, nexthdr: byte)
    returns (covered: nat)
    requires start + len + inside <= buf.Length && 8 + |iv| <= len
    requires 10 + |iv| + padlen as nat + |icv| <= len
    requires crypto.auth ==> |icv| > 0
    modifies buf
    ensures covered == |iv| + inside + padlen as nat + 2
    ensures var esp := old(buf[start..start + 8]);
      var c := Covered(iv, old(buf[start + len..start + len + inside]), padlen, nexthdr);
      buf[..] == Poke(old(buf[..]), start, esp + Sealed(crypto, key, c + SealedIcv(crypto, key, icv, esp, c)))
  {
    hide Poke, Covered, Sealed, SealedIcv;
    ghost var was := buf[..];
    ghost var esp, payload := buf[start..start + 8], buf[start + len..start + len + inside];
    covered := |iv| + inside + padlen as nat + 2;
    LayOut(buf, start, len, iv, icv, padlen, nexthdr, inside);
    Protect(crypto, buf, start, key, covered, |icv|, was, esp, Covered(iv, payload, padlen, nexthdr), icv);
  }

  method Finalize(crypto: Crypto, hdrs: string, index: nat, data: SendipData, pack: SendipData) returns (ok: bool)
    requires pack != data && pack.data == data.data && data.Within()
    requires pack.start + pack.allocLen == data.start
    requires Fits(pack.Contents(), pack.modified, pack.priv)
    requires crypto.auth ==> pack.priv.icvlen > 0
    modifies pack.data, pack`allocLen, data`start, data`allocLen
    ensures ok
    ensures var packet := Encapsulated(crypto, old(pack.Contents()), pack.modified, pack.priv,
                                       CharAt(hdrs, index + 1), old(data.Contents()));
      && pack.data[..] == Poke(old(pack.data[..]), pack.start, packet)
      && pack.allocLen == 8 && data.start == pack.start + 8 && data.allocLen == |packet| - 8
  {
    hide Poke, Fits, PadLength, NextHeader, Covered, Sealed, SealedIcv, Iv, GivenIcv, CharAt, AutoPad;
    var priv, at, len, inside := pack.priv, pack.start, pack.allocLen, data.allocLen;
    ghost var h := pack.Contents();
    PadFits(h, pack.modified, priv, inside);
    var padlen := FillPadLength(data, pack);
    var nexthdr := FillNextHeader(hdrs, index, pack);
    var iv, icv := SetAside(pack);
    assert h[..8] == pack.data[at..at + 8];
    var covered := Seal(crypto, pack.data, at, len, inside, priv.key, iv, icv, padlen, nexthdr);
    pack.allocLen := 8;
    data.start, data.allocLen := at + 8, covered + |icv|;
    ok := true;
  }

  lemma PadFits(h: seq<byte>, modified: bv32, priv: Private, inside: nat)
    requires Fits(h, modified, priv)
    ensures priv.EspPrivate? && |h| >= IVICV + priv.ivlen
    ensures 10 + priv.ivlen + PadLength(h, modified, priv.ivlen, inside) as nat + priv.icvlen <= |h|
    ensures |Iv(h, priv)| == priv.ivlen
  {
  }
}
