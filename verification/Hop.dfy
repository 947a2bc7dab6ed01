/** hop.c: hop-by-hop and destination options headers. */
module Hop {
  import opened Bytes
  import opened Headers
  import opened SendipModule

  /** The unit in which the header grows. */
  const HDR_ALLOC: nat := 8

  const HOP_MOD_NEXTHDR: bv32 := 8

  // ----- the used length, kept in the header length byte and the low bits of the flags

  /** modified & (HDR_ALLOC - 1) */
  function LowBits(modified: bv32): (r: nat)
    ensures r < 8
  {
    (modified & 7) as nat
  }

  /** The number of bytes used so far: while options are added the header length byte counts
  full units, and the low three bits of the flags the bytes of the last unit. */
  function Used(h: seq<byte>, modified: bv32): nat
    requires |h| >= 2
  {
    h[1] as nat * HDR_ALLOC + LowBits(modified)
  }

  // ----- finalize

  /** The unfilled rest zeroed (so many Pad1 options), and the header length as RFC 8200 counts
  it; a header that is filled exactly keeps its byte. */
  function Closed(h: seq<byte>, used: nat): (r: seq<byte>)
    requires |h| >= 8
    ensures |r| == |h|
  {
    if used == |h| then h
    else
      var z := if used < |h| then Poke(h, used, Zeros(|h| - used)) else h;
      Poke(z, 1, [(|h| / HDR_ALLOC - 1) % 0x100])
  }

  /** The header finalize leaves. */
  function Finalized(h: seq<byte>, modified: bv32, next: char): (r: seq<byte>)
    requires |h| >= 8
    ensures |r| == |h|
  {
    Closed(Unless(Has(modified, HOP_MOD_NEXTHDR), h, 0, [ProtocolOf(next)]), Used(h, modified))
  }

  /** The loop that zeroes the rest. */
  method ZeroFrom(buf: array<byte>, start: nat, used: nat, len: nat)
    requires start + len <= buf.Length
    modifies buf
    ensures buf[..] == if used < len then Poke(old(buf[..]), start + used, Zeros(len - used)) else old(buf[..])
  {
    var i := used;
    while i < len
      invariant used <= i && (used <= len ==> i <= len)
      invariant forall k :: 0 <= k < buf.Length ==>
        buf[k] == if start + used <= k < start + i && i <= len then 0 else old(buf[k])
    {
      buf[start + i] := 0;
      i := i + 1;
    }
  }

  /** Zeroes the rest and fixes the length byte, for a header h in the buffer `before`. */
  method Close(buf: array<byte>, at: nat, alloclen: nat, hoplen: nat, ghost before: seq<byte>, ghost h: seq<byte>)
    requires |before| == buf.Length && |h| == alloclen >= 8 && at + alloclen <= buf.Length && buf[..] == Poke(before, at, h)
    modifies buf
    ensures buf[..] == Poke(before, at, Closed(h, hoplen))
  {
    hide Poke, Zeros;
    if hoplen != alloclen {
      ghost var z := h;
      ZeroFrom(buf, at, hoplen, alloclen);
      if hoplen < alloclen {
        PokeInside(before, at, h, hoplen, Zeros(alloclen - hoplen));
        z := Poke(h, hoplen, Zeros(alloclen - hoplen));
      }
      Assign(buf, at, 1, [(alloclen / HDR_ALLOC - 1) % 0x100], before, z);
    }
  }

  method Finalize(hdrs: string, index: nat, pack: SendipData) returns (ok: bool)
    requires pack.Within() && pack.allocLen >= 8
    modifies pack.data
    ensures ok
    ensures pack.data[..] == Poke(old(pack.data[..]), pack.start,
      Finalized(old(pack.Contents()), pack.modified, CharAt(hdrs, index + 1)))
  {
    hide Poke, Unless, Has, LowBits, CharAt, ProtocolOf, Closed;
    var buf, at, alloclen := pack.data, pack.start, pack.allocLen;
    ghost var before, h := buf[..], pack.Contents();
    PokeSame(before, at, alloclen);
    assert h[1] == buf[at + 1];
    var hoplen := buf[at + 1] as nat * HDR_ALLOC + LowBits(pack.modified);
    var p := HeaderType(CharAt(hdrs, index + 1));
    h := AssignUnless(Has(pack.modified, HOP_MOD_NEXTHDR), buf, at, 0, [p], before, h);
    Close(buf, at, alloclen, hoplen, before, h);
    ok := true;
  }
}
