/** The finalizer of sctp.c: a CRC32c over the SCTP header and its chunks. */
module Sctp {
  import opened Bytes
  import opened SendipModule
  import Crc32

  const SCTP_MOD_CHECKSUM: bv32 := 8

  /** The octets of the header as bit vectors, the form the CRC works on. */
  function Octets(h: seq<byte>): (m: seq<bv8>)
    ensures |m| == |h|
  {
    seq(|h|, i requires 0 <= i < |h| => h[i] as bv8)
  }

  function FromOctets(m: seq<bv8>): (h: seq<byte>)
    ensures |h| == |m|
  {
    seq(|m|, i requires 0 <= i < |m| => m[i] as byte)
  }

  function Finalized(h: seq<byte>, modified: bv32): (r: seq<byte>)
    requires |h| >= 12
    ensures |r| == |h|
  {
    Unless(Has(modified, SCTP_MOD_CHECKSUM), h, 8, FromOctets(Crc32.Unpack(Crc32.Crc(Octets(h)), 4)))
  }

  method Finalize(pack: SendipData) returns (ok: bool)
    requires pack.Within() && pack.allocLen >= 12
    modifies pack.data
    ensures ok
    ensures pack.data[..] == Poke(old(pack.data[..]), pack.start, Finalized(old(pack.Contents()), pack.modified))
  {
    hide Poke, Has, FromOctets, Crc32.Crc, Crc32.Unpack;
    var sctp, at, len := pack.data, pack.start, pack.allocLen;
    ghost var before, h := sctp[..], pack.Contents();
    PokeSame(before, at, len);
    if !Has(pack.modified, SCTP_MOD_CHECKSUM) {
      var octets := new bv8[len];
      for i := 0 to len
        invariant octets[..i] == Octets(h)[..i]
        invariant sctp[..] == before
      {
        octets[i] := sctp[at + i] as bv8;
        assert h[i] == sctp[at + i];
      }
      assert octets[..len] == Octets(h);
      var crc := Crc32.Compute(octets, len);
      Assign(sctp, at, 8, FromOctets(Crc32.Unpack(crc, 4)), before, h);
    }
    ok := true;
  }

  // ----- the receiver: RFC 4960, section 6.8

  /** The checksum of everything from the SCTP header on, with the field zeroed, is what is in it. */
  predicate Verifies(packet: seq<byte>)
    requires |packet| >= 12
  {
    packet[8..12] == FromOctets(Crc32.Unpack(Crc32.Crc(Octets(Poke(packet, 8, Zeros(4)))), 4))
  }

  lemma ZeroedAgain(h: seq<byte>, modified: bv32, inside: seq<byte>)
    requires |h| >= 12 && h[8..12] == Zeros(4) && !Has(modified, SCTP_MOD_CHECKSUM)
    ensures var packet := Finalized(h, modified) + inside;
      && packet[8..12] == FromOctets(Crc32.Unpack(Crc32.Crc(Octets(h)), 4))
      && Poke(packet, 8, Zeros(4)) == h + inside
  {
    hide Crc32.Crc, Crc32.Unpack, FromOctets, Octets;
    var v := FromOctets(Crc32.Unpack(Crc32.Crc(Octets(h)), 4));
    assert Finalized(h, modified) == h[..8] + v + h[12..];
    assert h == h[..8] + h[8..12] + h[12..];
    var packet := Finalized(h, modified) + inside;
    assert packet[8..12] == v;
    assert Poke(packet, 8, Zeros(4)) == h[..8] + Zeros(4) + h[12..] + inside;
  }

  /** A header whose field was zero before verifies, on its own. */
  lemma ChecksumVerifies(h: seq<byte>, modified: bv32)
    requires |h| >= 12 && h[8..12] == Zeros(4) && !Has(modified, SCTP_MOD_CHECKSUM)
    ensures Verifies(Finalized(h, modified))
  {
    hide Crc32.Crc, Crc32.Unpack, FromOctets, Octets, Finalized;
    ZeroedAgain(h, modified, []);
    assert Finalized(h, modified) + [] == Finalized(h, modified) && h + [] == h;
  }

  lemma SameOctets(x: bv32, y: bv32)
    ensures FromOctets(Crc32.Unpack(x, 4)) == FromOctets(Crc32.Unpack(y, 4)) <==> x == y
  {
    hide Crc32.Unpack, Crc32.Pack, Crc32.Downs;
    Crc32.FourDowns(x);
    Crc32.FourDowns(y);
    Crc32.PackUnpacks(x, 4);
    Crc32.PackUnpacks(y, 4);
    OctetsBack(Crc32.Unpack(x, 4));
    OctetsBack(Crc32.Unpack(y, 4));
  }

  lemma OctetsBack(m: seq<bv8>)
    ensures Octets(FromOctets(m)) == m
  {
    forall i | 0 <= i < |m| ensures Octets(FromOctets(m))[i] == m[i] {
      OctetBack(m[i]);
    }
  }

  lemma OctetBack(b: bv8)
    ensures (b as byte) as bv8 == b
  {
  }

  /** The register after the header with its field zeroed. */
  function Register(h: seq<byte>): bv32
  {
    Crc32.Run(Crc32.INITIAL, Octets(h))
  }

  /** finalize covers its own header only. With something inside, the packet verifies exactly when
  that leaves the register where the header has left it. */
  lemma InsideVerifiesIff(h: seq<byte>, modified: bv32, inside: seq<byte>)
    requires |h| >= 12 && h[8..12] == Zeros(4) && !Has(modified, SCTP_MOD_CHECKSUM)
    ensures Verifies(Finalized(h, modified) + inside) <==> Crc32.Run(Register(h), Octets(inside)) == Register(h)
  {
    hide Crc32.Run, Crc32.Unpack, Crc32.Complement, FromOctets, Octets, Finalized;
    ZeroedAgain(h, modified, inside);
    OctetsAppend(h, inside);
    Crc32.RunAppends(Crc32.INITIAL, Octets(h), Octets(inside));
    SameOctets(Crc32.Crc(Octets(h)), Crc32.Crc(Octets(h + inside)));
    Crc32.ComplementIsInjective(Crc32.Run(Crc32.INITIAL, Octets(h)), Crc32.Run(Crc32.INITIAL, Octets(h + inside)));
  }

  lemma OctetsAppend(h: seq<byte>, inside: seq<byte>)
    ensures Octets(h + inside) == Octets(h) + Octets(inside)
  {
  }

  /** Of all packets of one length of up to four bytes at most one does. */
  lemma InsideIsUnique(h: seq<byte>, modified: bv32, a: seq<bv8>, b: seq<bv8>)
    requires |h| >= 12 && h[8..12] == Zeros(4) && !Has(modified, SCTP_MOD_CHECKSUM) && |a| == |b| <= 4
    requires Verifies(Finalized(h, modified) + FromOctets(a)) && Verifies(Finalized(h, modified) + FromOctets(b))
    ensures a == b
  {
    hide Crc32.Run, Crc32.Complement, Octets, Finalized, Verifies, FromOctets;
    InsideVerifiesIff(h, modified, FromOctets(a));
    InsideVerifiesIff(h, modified, FromOctets(b));
    OctetsBack(a);
    OctetsBack(b);
    var m := Octets(h);
    Crc32.RunAppends(Crc32.INITIAL, m, a);
    Crc32.RunAppends(Crc32.INITIAL, m, b);
    Crc32.BurstIsDetected(m, a, b, []);
    assert m + a + [] == m + a && m + b + [] == m + b;
  }

  /** An empty header with one chunk, the CRC of that header, and one zero byte inside. */
  lemma OneByteInsideFails()
    ensures var h := Zeros(12) + FromOctets(Crc32.Unpack(Crc32.Crc(Octets(Zeros(12))), 4));
      |h| == 16 && !Verifies(Finalized(h, 0) + [0])
  {
    hide Crc32.Crc, Crc32.Unpack, Crc32.Run, FromOctets, Octets, Finalized, Verifies;
    var crc := Crc32.Unpack(Crc32.Crc(Octets(Zeros(12))), 4);
    var h := Zeros(12) + FromOctets(crc);
    OctetsAppend(Zeros(12), FromOctets(crc));
    OctetsBack(crc);
    Crc32.AppendedCrcLeavesResidue(Octets(Zeros(12)));
    assert Register(h) == Crc32.RESIDUE;
    InsideVerifiesIff(h, 0, [0]);
    ResidueMovesOn();
  }

  lemma ResidueMovesOn()
    ensures Crc32.Run(Crc32.RESIDUE, Octets([0])) != Crc32.RESIDUE
  {
    hide Crc32.Shifts, Crc32.Plus, Crc32.OfByte;
    var m := Octets([0]);
    assert |m| == 1 && m[0] == 0 && m[1..] == [];
    Crc32.ResidueStep();
  }
}
