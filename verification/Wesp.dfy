/** wesp.c: the wrapped ESP header. */
module Wesp {
  import opened Bytes
  import opened Headers
  import opened SendipModule

  const WESP_MOD_HDRLEN: bv32 := 16
  const WESP_MOD_TRLRLEN: bv32 := 32
  const WESP_MOD_NEXTHDR: bv32 := 64

  /** The flag that says that the payload is encrypted. */
  predicate EncryptedFlag(flags: byte)
  {
    flags / 32 % 2 == 1
  }

  predicate Encrypted(h: seq<byte>)
    requires |h| >= 4
  {
    EncryptedFlag(h[3])
  }

  /** finalize reads the lengths kept by the header it wraps unless they are given or zero. */
  predicate NeedsEsp(h: seq<byte>, modified: bv32)
    requires |h| >= 4
  {
    !Encrypted(h) && !(Has(modified, WESP_MOD_HDRLEN) && Has(modified, WESP_MOD_TRLRLEN))
  }

  function NextHeader(encrypted: bool, wrapped: char, afterEsp: char): byte
  {
    if encrypted || wrapped != 'e' then 0 else ProtocolOf(afterEsp)
  }

  /** From the start of the WESP header to the start of the payload after the IV. */
  function HeaderLength(encrypted: bool, modified: bv32, len: nat, esp: Private): byte
  {
    if encrypted || Has(modified, WESP_MOD_HDRLEN) || esp == NoPrivate then 0 else (len + 8 + esp.ivlen) % 0x100
  }

  function TrailerLength(encrypted: bool, modified: bv32, esp: Private): byte
  {
    if encrypted || Has(modified, WESP_MOD_TRLRLEN) || esp == NoPrivate then 0 else esp.icvlen % 0x100
  }

  /** The header finalize leaves; esp is what the wrapped header keeps in private. */
  function Finalized(h: seq<byte>, modified: bv32, wrapped: char, afterEsp: char, esp: Private): (r: seq<byte>)
    requires |h| >= 4
    ensures |r| == |h|
  {
    var h1 := Unless(Has(modified, WESP_MOD_NEXTHDR), h, 0, [NextHeader(Encrypted(h), wrapped, afterEsp)]);
    var h2 := Unless(Has(modified, WESP_MOD_HDRLEN), h1, 1, [HeaderLength(Encrypted(h), modified, |h|, esp)]);
    Unless(Has(modified, WESP_MOD_TRLRLEN), h2, 2, [TrailerLength(Encrypted(h), modified, esp)])
  }

  /** Without the encrypted flag, lengths that are not given are those of the wrapped header. */
  lemma AutomaticLengths(h: seq<byte>, modified: bv32, wrapped: char, afterEsp: char, esp: Private)
    requires |h| >= 4 && !Encrypted(h) && esp.EspPrivate?
    requires !Has(modified, WESP_MOD_HDRLEN) && !Has(modified, WESP_MOD_TRLRLEN)
    requires |h| + 8 + esp.ivlen < 0x100 && esp.icvlen < 0x100
    ensures var r := Finalized(h, modified, wrapped, afterEsp, esp);
      r[1] as nat == |h| + 8 + esp.ivlen && r[2] as nat == esp.icvlen
  {
    hide Has, Encrypted, NextHeader;
  }

  method Follower(encrypted: bool, wrapped: char, afterEsp: char) returns (nexthdr: byte)
    ensures nexthdr == NextHeader(encrypted, wrapped, afterEsp)
  {
    if encrypted || wrapped != 'e' {
      nexthdr := 0;
    } else {
      nexthdr := HeaderType(afterEsp);
    }
  }

  method Finalize(hdrs: string, headers: seq<SendipData>, index: nat, pack: SendipData) returns (ok: bool)
    requires pack.Within() && pack.allocLen >= 4
    requires NeedsEsp(pack.Contents(), pack.modified) ==> index + 1 < |headers| && headers[index + 1].priv.EspPrivate?
    modifies pack.data
    ensures ok
    ensures pack.data[..] == Poke(old(pack.data[..]), pack.start,
      Finalized(old(pack.Contents()), pack.modified, CharAt(hdrs, index + 1), CharAt(hdrs, index + 2),
                if index + 1 < |headers| then headers[index + 1].priv else NoPrivate))
  {
    hide Poke, Unless, Has, NextHeader, HeaderLength, TrailerLength, EncryptedFlag, CharAt;
    var wesp, at, len, modified := pack.data, pack.start, pack.allocLen, pack.modified;
    var encrypted := EncryptedFlag(wesp[at + 3]);
    var priv := if index + 1 < |headers| then headers[index + 1].priv else NoPrivate;
    ghost var before, h := wesp[..], pack.Contents();
    PokeSame(before, at, len);
    assert h[3] == wesp[at + 3];
    var nexthdr := Follower(encrypted, CharAt(hdrs, index + 1), CharAt(hdrs, index + 2));
    h := AssignUnless(Has(modified, WESP_MOD_NEXTHDR), wesp, at, 0, [nexthdr], before, h);
    h := AssignUnless(Has(modified, WESP_MOD_HDRLEN), wesp, at, 1, [HeaderLength(encrypted, modified, len, priv)], before, h);
    h := AssignUnless(Has(modified, WESP_MOD_TRLRLEN), wesp, at, 2, [TrailerLength(encrypted, modified, priv)], before, h);
    ok := true;
  }
}
