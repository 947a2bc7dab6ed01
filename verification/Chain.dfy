/** The finalizers of ah.c, frag.c and route.c: extension headers that only fill in their next
header byte. */
module Chain {
  import opened Bytes
  import opened Headers
  import opened SendipModule

  const AH_MOD_NEXTHDR: bv32 := 8
  const FRAG_MOD_NEXTHDR: bv32 := 1
  const ROUTE_MOD_NEXTHDR: bv32 := 1

  function NextHeaderFlag(kind: char): bv32
  {
    if kind == 'a' then AH_MOD_NEXTHDR else if kind == 'F' then FRAG_MOD_NEXTHDR else ROUTE_MOD_NEXTHDR
  }

  function Finalized(kind: char, h: seq<byte>, modified: bv32, next: char): (r: seq<byte>)
    requires |h| >= 1
    ensures |r| == |h|
  {
    Unless(Has(modified, NextHeaderFlag(kind)), h, 0, [ProtocolOf(next)])
  }

  method Finalize(kind: char, hdrs: string, index: nat, pack: SendipData) returns (ok: bool)
    requires pack.Within() && pack.allocLen >= 1
    modifies pack.data
    ensures ok
    ensures pack.data[..] == Poke(old(pack.data[..]), pack.start,
      Finalized(kind, old(pack.Contents()), pack.modified, CharAt(hdrs, index + 1)))
  {
    hide Poke, Unless, Has, NextHeaderFlag;
    ghost var before, h := pack.data[..], pack.Contents();
    PokeSame(before, pack.start, pack.allocLen);
    var p := HeaderType(CharAt(hdrs, index + 1));
    h := AssignUnless(Has(pack.modified, NextHeaderFlag(kind)), pack.data, pack.start, 0, [p], before, h);
    ok := true;
  }
}
