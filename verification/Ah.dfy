/** The authentication data option of ah.c, which sizes the header. */
module Ah {
  import opened Bytes
  import opened SendipModule

  const AH_HEADER: nat := 12
  const AH_MOD_AUTHDATA: bv32 := 4

  /** The length byte counts 32-bit words, without the first two. */
  function ClaimedLength(h: seq<byte>): nat
    requires |h| >= 2
  {
    (h[1] as nat + 2) * 4
  }

  function WithAuthData(h: seq<byte>, auth: seq<byte>): (r: seq<byte>)
    requires |h| >= AH_HEADER
    ensures |r| == AH_HEADER + |auth|
  {
    h[..AH_HEADER][1 := (1 + |auth| / 4) % 0x100] + auth
  }

  /** The length byte is right exactly for whole words of data that it can count. */
  lemma LengthIsRightIff(h: seq<byte>, auth: seq<byte>)
    requires |h| >= AH_HEADER
    ensures ClaimedLength(WithAuthData(h, auth)) == AH_HEADER + |auth| <==> |auth| % 4 == 0 && |auth| <= 1016
  {
    assert WithAuthData(h, auth)[1] == (1 + |auth| / 4) % 0x100;
    if |auth| % 4 == 0 && |auth| <= 1016 {
      assert 1 + |auth| / 4 < 0x100;
    }
  }

  /** The data stands behind the fixed part, of which only the length byte changes. */
  lemma DataStands(h: seq<byte>, auth: seq<byte>)
    requires |h| >= AH_HEADER
    ensures var r := WithAuthData(h, auth);
      r[0] == h[0] && r[2..12] == h[2..12] && r[12..] == auth
  {
    var r := WithAuthData(h, auth);
    forall k | 2 <= k < 12 ensures r[k] == h[k] {
    }
  }

  /** One byte of data is not counted. */
  lemma OneByteIsNotCounted(h: seq<byte>, b: byte)
    requires |h| >= AH_HEADER
    ensures |WithAuthData(h, [b])| == 13 && ClaimedLength(WithAuthData(h, [b])) == 12
  {
    assert WithAuthData(h, [b])[1] == 1;
  }

  /** Option -ad: the header is reallocated to its fixed part and the data. */
  method AuthData(pack: SendipData, auth: seq<byte>)
    requires pack.Within() && pack.start == 0 && pack.allocLen >= AH_HEADER
    modifies pack`data, pack`allocLen, pack`modified
    ensures pack.Within() && fresh(pack.data)
    ensures pack.Contents() == WithAuthData(old(pack.Contents()), auth)
    ensures pack.modified == old(pack.modified) | AH_MOD_AUTHDATA
  {
    ghost var h := pack.Contents();
    var buf := new byte[AH_HEADER + |auth|](i => 0);
    Put(buf, 0, pack.data[..AH_HEADER]);
    Put(buf, AH_HEADER, auth);
    buf[1] := (1 + |auth| / 4) % 0x100;
    pack.data, pack.allocLen := buf, buf.Length;
    pack.modified := pack.modified | AH_MOD_AUTHDATA;
    assert pack.Contents() == WithAuthData(h, auth);
  }
}
