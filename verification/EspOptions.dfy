/** The options of esp.c: IV and ICV wait in the oversized header until finalize moves them. */
module EspOptions {
  import opened Bytes
  import opened SendipModule
  import opened Esp
  import opened Wrappers
  import EspReceiver

  const ESP_MIN_PADDING: nat := 4
  const OCTET_MAX: nat := 255

  const ESP_MOD_SPI: bv32 := 1
  const ESP_MOD_SEQUENCE: bv32 := 2
  const ESP_MOD_IV: bv32 := 16
  const ESP_MOD_ICV: bv32 := 32
  const ESP_MOD_KEY: bv32 := 64

  type Word32 = s: seq<byte> | |s| == 4 witness [0, 0, 0, 0]

  /** The options with their parsed values; those that load a module are not modelled. */
  datatype Option =
    | Spi(spi: Word32)
    | Sequence(seqNo: Word32)
    | Padding(length: nat)
    | IvData(iv: seq<byte>)
    | IcvData(icv: seq<byte>)
    | Key(key: seq<byte>)
    | NextHdr(proto: byte)

  function FlagOf(opt: Option): bv32
  {
    match opt
    case Spi(_) => ESP_MOD_SPI
    case Sequence(_) => ESP_MOD_SEQUENCE
    case Padding(_) => ESP_MOD_PADDING
    case IvData(_) => ESP_MOD_IV
    case IcvData(_) => ESP_MOD_ICV
    case Key(_) => ESP_MOD_KEY
    case NextHdr(_) => ESP_MOD_NEXTHDR
  }

  /** pack->modified |= ESP_MOD_... */
  function WithFlag(modified: bv32, opt: Option): bv32
  {
    modified | FlagOf(opt)
  }

  function BeyondMinimum(padlen: nat): nat
  {
    if padlen > ESP_MIN_PADDING then padlen - ESP_MIN_PADDING else 0
  }

  /** The header holds this IV and this ICV where finalize looks for them, and there is room for
  both and for the padding it may have to add. */
  predicate Holds(h: seq<byte>, priv: Private, iv: seq<byte>, icv: seq<byte>)
  {
    && priv.EspPrivate? && priv.ivlen == |iv| && priv.icvlen == |icv|
    && |h| >= IVICV + ESP_MIN_PADDING + |iv| + |icv| + (if |h| > 8 then BeyondMinimum(h[8]) else 0)
    && h[IVICV..IVICV + |iv|] == iv
    && HoldsIcv(h, |iv|, icv)
  }

  predicate HoldsIcv(h: seq<byte>, ivlen: nat, icv: seq<byte>)
  {
    |icv| > 0 ==> IcvOffset(ivlen) + |icv| <= |h| && h[IcvOffset(ivlen)..IcvOffset(ivlen) + |icv|] == icv
  }

  /** What the builder keeps is what finalize needs, for whatever options were given. */
  lemma HeldIsReady(h: seq<byte>, modified: bv32, priv: Private, iv: seq<byte>, icv: seq<byte>)
    requires Holds(h, priv, iv, icv)
    ensures Fits(h, modified, priv) && Iv(h, priv) == iv && GivenIcv(h, priv) == icv
  {
    hide Has;
  }

  /** From the options to the other end: the receiver gets the IV that was given, whether the ICV
  came before or after it and whatever padding was asked for. */
  lemma GivenIvArrives(crypto: Crypto, h: seq<byte>, modified: bv32, priv: Private, iv: seq<byte>, icv: seq<byte>,
                       next: char, inside: seq<byte>)
    requires Holds(h, priv, iv, icv) && (crypto.auth ==> |icv| > 0)
    ensures Fits(h, modified, priv)
    ensures EspReceiver.Open(EspReceiver.AssociationOf(crypto, priv), Encapsulated(crypto, h, modified, priv, next, inside))
      == EspReceiver.Opened(h[..8], iv, inside, NextHeader(h, modified, next))
  {
    hide Holds, Fits, Encapsulated, EspReceiver.Open, NextHeader;
    HeldIsReady(h, modified, priv, iv, icv);
    EspReceiver.OpensEncapsulated(crypto, h, modified, priv, next, inside);
  }

  // ----- the allocation, and where an ICV is written

  /** What the allocation gains by an option. */
  function Growth(opt: Option): nat
  {
    match opt
    case Padding(n) => BeyondMinimum(n)
    case IvData(v) => |v|
    case IcvData(v) => |v|
    case _ => 0
  }

  function Grown(os: seq<Option>): nat
  {
    if |os| == 0 then 0 else Grown(os[..|os| - 1]) + Growth(os[|os| - 1])
  }

  /** The size of a header after these options. */
  function Allocated(os: seq<Option>): nat
  {
    IVICV + ESP_MIN_PADDING + Grown(os)
  }

  /** The length of the last IV given. */
  function IvLength(os: seq<Option>): nat
  {
    if |os| == 0 then 0
    else if os[|os| - 1].IvData? then |os[|os| - 1].iv| else IvLength(os[..|os| - 1])
  }

  /** The length of the last ICV given. */
  function IcvLength(os: seq<Option>): nat
  {
    if |os| == 0 then 0
    else if os[|os| - 1].IcvData? then |os[|os| - 1].icv| else IcvLength(os[..|os| - 1])
  }

  /** After the options os, the one that comes next writes or moves an ICV inside the allocation
  only. The source does not check this. */
  predicate InBounds(os: seq<Option>, opt: Option)
  {
    match opt
    case IvData(v) => IcvLength(os) > 0 ==> IcvOffset(|v|) + IcvLength(os) <= Allocated(os) + |v|
    case IcvData(v) => |v| > 0 ==> IcvOffset(IvLength(os)) + |v| <= Allocated(os) + |v|
    case _ => true
  }

  predicate AllInBounds(os: seq<Option>)
  {
    |os| == 0 || (AllInBounds(os[..|os| - 1]) && InBounds(os[..|os| - 1], os[|os| - 1]))
  }

  lemma OneMore(os: seq<Option>, opt: Option)
    ensures Allocated(os + [opt]) == Allocated(os) + Growth(opt)
    ensures IvLength(os + [opt]) == if opt.IvData? then |opt.iv| else IvLength(os)
    ensures IcvLength(os + [opt]) == if opt.IcvData? then |opt.icv| else IcvLength(os)
    ensures AllInBounds(os + [opt]) <==> AllInBounds(os) && InBounds(os, opt)
  {
    assert (os + [opt])[..|os + [opt]| - 1] == os;
  }

  lemma OneMoreIv(os: seq<Option>, given: seq<byte>)
    ensures Allocated(os + [IvData(given)]) == Allocated(os) + |given|
    ensures IvLength(os + [IvData(given)]) == |given| && IcvLength(os + [IvData(given)]) == IcvLength(os)
    ensures InBounds(os, IvData(given)) && IcvLength(os) > 0 ==> IcvOffset(|given|) + IcvLength(os) <= Allocated(os) + |given|
  {
    OneMore(os, IvData(given));
  }

  /** Options that give neither IV nor ICV. */
  predicate Others(os: seq<Option>)
  {
    forall k :: 0 <= k < |os| ==> !os[k].IvData? && !os[k].IcvData?
  }

  /** They never write outside, and let the header grow by what they ask of padding. */
  lemma {:induction false} OthersAppended(os: seq<Option>, more: seq<Option>)
    requires Others(more)
    ensures Allocated(os + more) == Allocated(os) + Grown(more)
    ensures IvLength(os + more) == IvLength(os) && IcvLength(os + more) == IcvLength(os)
    ensures AllInBounds(os + more) <==> AllInBounds(os)
  {
    if |more| == 0 {
      assert os + more == os;
    } else {
      var front, last := more[..|more| - 1], more[|more| - 1];
      OthersAppended(os, front);
      OneMore(os + front, last);
      assert os + more == os + front + [last];
    }
  }

  lemma {:induction false} GrownAppends(a: seq<Option>, b: seq<Option>)
    ensures Grown(a + b) == Grown(a) + Grown(b)
  {
    if |b| == 0 {
      assert a + b == a;
    } else {
      GrownAppends(a, b[..|b| - 1]);
      assert (a + b)[..|a + b| - 1] == a + b[..|b| - 1];
    }
  }

  /** The options a, IV and ICV with the options b between them, and the options c. */
  function Both(a: seq<Option>, iv: seq<byte>, icv: seq<byte>, ivFirst: bool, b: seq<Option>, c: seq<Option>): seq<Option>
  {
    a + [if ivFirst then IvData(iv) else IcvData(icv)] + b + [if ivFirst then IcvData(icv) else IvData(iv)] + c
  }

  /** Of runs of options that give IV and ICV once each, in whatever order and with whatever other
  options in between, exactly those stay inside the allocation whose IV has at most a third of the
  bytes for padding there are by then (or whose ICV is empty): the place of the ICV counts four
  bytes per byte of IV. */
  lemma IcvHasRoomIff(a: seq<Option>, iv: seq<byte>, icv: seq<byte>, ivFirst: bool, b: seq<Option>, c: seq<Option>)
    requires Others(a) && Others(b) && Others(c)
    ensures AllInBounds(Both(a, iv, icv, ivFirst, b, c)) <==> icv == [] || 3 * |iv| <= ESP_MIN_PADDING + Grown(a + b)
  {
    hide Grown, IvLength, IcvLength, AllInBounds, Others;
    var x := if ivFirst then IvData(iv) else IcvData(icv);
    var y := if ivFirst then IcvData(icv) else IvData(iv);
    NothingGiven();
    assert [] + a == a;
    OthersAppended([], a);
    OneMore(a, x);
    OthersAppended(a + [x], b);
    OneMore(a + [x] + b, y);
    OthersAppended(a + [x] + b + [y], c);
    GrownAppends(a, b);
  }

  lemma NothingGiven()
    ensures Grown([]) == 0 && IvLength([]) == 0 && IcvLength([]) == 0 && AllInBounds([])
  {
  }

  /** Four bytes of IV and four of ICV without padding: the ICV goes to offset 28 of 24 bytes. */
  lemma IcvRunsOut(iv: seq<byte>, icv: seq<byte>)
    requires |iv| == 4 && |icv| == 4
    ensures Allocated([IvData(iv), IcvData(icv)]) == 24 && IcvOffset(|iv|) == 28
    ensures !AllInBounds([IvData(iv), IcvData(icv)]) && !AllInBounds([IcvData(icv), IvData(iv)])
  {
    hide AllInBounds, Grown, IvLength, IcvLength;
    NothingGiven();
    assert [] + [IvData(iv)] == [IvData(iv)] && [IvData(iv)] + [IcvData(icv)] == [IvData(iv), IcvData(icv)];
    OneMore([], IvData(iv));
    OneMore([IvData(iv)], IcvData(icv));
    assert Both([], iv, icv, true, [], []) == [IvData(iv), IcvData(icv)];
    assert Both([], iv, icv, false, [], []) == [IcvData(icv), IvData(iv)];
    var none: seq<Option> := [];
    assert none + none == none;
    IcvHasRoomIff([], iv, icv, true, [], []);
    IcvHasRoomIff([], iv, icv, false, [], []);
  }

  lemma IcvMoved(s: seq<byte>, ivlen: nat, icv: seq<byte>)
    requires IcvOffset(ivlen) + |icv| <= |s|
    ensures var r := Poke(s, IcvOffset(ivlen), icv);
      HoldsIcv(r, ivlen, icv) && r[..IVICV + ivlen] == s[..IVICV + ivlen]
  {
  }

  lemma FirstIcv(h: seq<byte>, icv: seq<byte>)
    requires |h| >= IVICV + |icv|
    ensures HoldsIcv(h, 0, icv) ==> icv == h[IVICV..IVICV + |icv|]
  {
  }

  lemma NoIcv(s: seq<byte>, ivlen: nat)
    ensures HoldsIcv(s, ivlen, [])
  {
  }

  lemma IvGiven(s: seq<byte>, iv: seq<byte>, icv: seq<byte>)
    requires IVICV + |iv| <= |s| && HoldsIcv(s, |iv|, icv)
    ensures var r := Poke(s, IVICV, iv);
      HoldsIcv(r, |iv|, icv) && r[IVICV..IVICV + |iv|] == iv && r[..IVICV] == s[..IVICV]
  {
  }

  /** What an option puts into the first ten bytes. */
  function Fixed(h: seq<byte>, opt: Option): (r: seq<byte>)
    requires |h| == 10 && (opt.Padding? ==> opt.length <= OCTET_MAX)
    ensures |r| == 10
  {
    match opt
    case Spi(v) => Poke(h, 0, v)
    case Sequence(v) => Poke(h, 4, v)
    case Padding(n) => h[8 := n]
    case NextHdr(p) => Poke(h, 9, [p])
    case _ => h
  }

  /** The first ten bytes after these options. */
  function FixedAll(os: seq<Option>): (r: seq<byte>)
    ensures |r| == 10
  {
    if |os| == 0 then Zeros(10)
    else
      var front, last := FixedAll(os[..|os| - 1]), os[|os| - 1];
      if last.Padding? && last.length > OCTET_MAX then front else Fixed(front, last)
  }

  function FlagsAll(os: seq<Option>): bv32
  {
    if |os| == 0 then 0 else WithFlag(FlagsAll(os[..|os| - 1]), os[|os| - 1])
  }

  /** The key given last. */
  function KeyAll(os: seq<Option>): seq<byte>
  {
    if |os| == 0 then [] else if os[|os| - 1].Key? then os[|os| - 1].key else KeyAll(os[..|os| - 1])
  }

  lemma OneMoreFixed(os: seq<Option>, opt: Option)
    requires opt.Padding? ==> opt.length <= OCTET_MAX
    ensures FixedAll(os + [opt]) == Fixed(FixedAll(os), opt)
    ensures FlagsAll(os + [opt]) == WithFlag(FlagsAll(os), opt)
    ensures KeyAll(os + [opt]) == if opt.Key? then opt.key else KeyAll(os)
  {
    hide Fixed, WithFlag;
    assert (os + [opt])[..|os + [opt]| - 1] == os;
  }

  lemma HoldsBehind(h: seq<byte>, r: seq<byte>, priv: Private, iv: seq<byte>, icv: seq<byte>)
    requires Holds(h, priv, iv, icv) && |r| == |h| && r[8] == h[8] && r[IVICV..] == h[IVICV..]
    ensures Holds(r, priv, iv, icv)
  {
    SliceOfSuffix(r, IVICV, 0, |iv|);
    SliceOfSuffix(h, IVICV, 0, |iv|);
    if |icv| > 0 {
      var at := IcvOffset(|iv|);
      SliceOfSuffix(r, IVICV, at - IVICV, at - IVICV + |icv|);
      SliceOfSuffix(h, IVICV, at - IVICV, at - IVICV + |icv|);
    }
  }

  lemma HoldsSize(h: seq<byte>, priv: Private, iv: seq<byte>, icv: seq<byte>)
    requires Holds(h, priv, iv, icv)
    ensures priv.EspPrivate? && |h| >= IVICV + ESP_MIN_PADDING
  {
  }

  lemma HoldsParts(h: seq<byte>, priv: Private, iv: seq<byte>, icv: seq<byte>)
    requires Holds(h, priv, iv, icv)
    ensures priv.EspPrivate? && priv.ivlen == |iv| && priv.icvlen == |icv| && |h| >= IVICV + ESP_MIN_PADDING
    ensures |h| >= IVICV + ESP_MIN_PADDING + |iv| + |icv| + BeyondMinimum(h[8])
    ensures h[IVICV..IVICV + |iv|] == iv && HoldsIcv(h, |iv|, icv)
  {
  }

  lemma HoldsWhen(h: seq<byte>, priv: Private, iv: seq<byte>, icv: seq<byte>)
    requires priv.EspPrivate? && priv.ivlen == |iv| && priv.icvlen == |icv| && |h| >= IVICV + ESP_MIN_PADDING
    requires |h| >= IVICV + ESP_MIN_PADDING + |iv| + |icv| + BeyondMinimum(h[8])
    requires h[IVICV..IVICV + |iv|] == iv && HoldsIcv(h, |iv|, icv)
    ensures Holds(h, priv, iv, icv)
  {
  }

  lemma HoldsAnyKey(h: seq<byte>, priv: Private, iv: seq<byte>, icv: seq<byte>, key: seq<byte>)
    requires Holds(h, priv, iv, icv)
    ensures priv.EspPrivate? && Holds(h, priv.(key := key), iv, icv)
  {
  }

  lemma HoldsWithPadding(h: seq<byte>, r: seq<byte>, priv: Private, iv: seq<byte>, icv: seq<byte>, length: byte)
    requires Holds(h, priv, iv, icv) && |r| == |h| + BeyondMinimum(length) && r[..|h|] == h[8 := length]
    ensures Holds(r, priv, iv, icv)
  {
    KeptBehind(h, r, length, IVICV, IVICV + |iv|);
    if |icv| > 0 {
      KeptBehind(h, r, length, IcvOffset(|iv|), IcvOffset(|iv|) + |icv|);
    }
    assert r[8] == r[..|h|][8];
  }

  lemma KeptBehind(h: seq<byte>, r: seq<byte>, b: byte, from: nat, to: nat)
    requires 8 < from <= to <= |h| <= |r| && r[..|h|] == h[8 := b]
    ensures r[from..to] == h[from..to]
  {
    forall k | from <= k < to ensures r[k] == h[k] {
      assert r[k] == r[..|h|][k];
    }
  }

  lemma SamePadLength(s: seq<byte>, t: seq<byte>)
    requires |s| >= 10 && |t| >= 10 && s[..10] == t[..10]
    ensures s[8] == t[8]
  {
    assert s[8] == s[..10][8] && t[8] == t[..10][8];
  }

  class Header {
    var data: array<byte>
    var modified: bv32
    var priv: Private
    /** What was given as IV and as ICV. */
    ghost var iv: seq<byte>
    ghost var icv: seq<byte>
    /** The options that were accepted. */
    ghost var options: seq<Option>

    ghost predicate Valid()
      reads this, data
    {
      && Holds(data[..], priv, iv, icv)
      && data.Length == Allocated(options)
      && |iv| == IvLength(options) && |icv| == IcvLength(options)
    }

    /** Everything else that the accepted options have given. */
    ghost predicate Matches()
      reads this, data
    {
      && Valid() && data.Length >= 10 && data[..10] == FixedAll(options)
      && modified == FlagsAll(options) && priv.EspPrivate? && priv.key == KeyAll(options)
    }

    /** initialize */
    constructor ()
      ensures Valid() && fresh(data) && iv == [] && icv == [] && options == [] && modified == 0
      ensures Matches()
    {
      data := new byte[IVICV + ESP_MIN_PADDING](_ => 0);
      modified, priv, iv, icv, options := 0, EspPrivate(0, 0, []), [], [], [];
      new;
      assert data[..10] == Zeros(10);
    }

    /** The ICV that is left after a new IV: one that was already shifted is not found again. */
    ghost function IcvAfterIv(): (r: seq<byte>)
      reads this, data
      requires Valid()
    {
      if iv == [] then icv else data[IVICV..IVICV + |icv|]
    }

    /** The ICV moves behind the room of an IV of this length. */
    method MoveIcv(ivlen: nat, icvlen: nat)
      requires data.Length >= IVICV + icvlen && data.Length >= IVICV + ivlen
      requires icvlen > 0 ==> IcvOffset(ivlen) + icvlen <= data.Length
      modifies data
      ensures HoldsIcv(data[..], ivlen, old(data[IVICV..IVICV + icvlen]))
      ensures data[..IVICV + ivlen] == old(data[..IVICV + ivlen])
    {
      hide Poke, HoldsIcv;
      ghost var was, last := data[..], data[IVICV..IVICV + icvlen];
      if icvlen > 0 {
        Move(data, IcvOffset(ivlen), IVICV, icvlen);
        IcvMoved(was, ivlen, last);
      } else {
        NoIcv(was, ivlen);
        assert last == [];
      }
    }

    /** The IV goes to the front. */
    method PutIv(given: seq<byte>, ghost last: seq<byte>)
      requires IVICV + |given| <= data.Length && HoldsIcv(data[..], |given|, last)
      modifies data
      ensures HoldsIcv(data[..], |given|, last) && data[IVICV..IVICV + |given|] == given
      ensures data[..10] == old(data[..10])
    {
      hide Poke, HoldsIcv;
      ghost var was := data[..];
      Put(data, IVICV, given);
      IvGiven(was, given, last);
      PrefixOfPrefix(data[..], was, IVICV, 10);
    }

    /** What an ICV is moved from. */
    lemma LastIcv()
      requires Valid()
      ensures data.Length >= IVICV + |icv| && IcvAfterIv() == data[IVICV..IVICV + |icv|]
    {
      hide HoldsIcv, Grown, IvLength, IcvLength, Allocated;
      HoldsParts(data[..], priv, iv, icv);
      FirstIcv(data[..], icv);
    }

    /** realloc; `n` bytes behind the fixed part are looked at later. */
    method Enlarge(more: nat, ghost n: nat)
      requires data.Length >= IVICV + n
      modifies this`data
      ensures fresh(data) && data.Length == old(data.Length) + more
      ensures data[..10] == old(data[..10]) && data[IVICV..IVICV + n] == old(data[IVICV..IVICV + n])
    {
      ghost var was := data[..];
      data := Realloc(data, data.Length + more);
      SliceOfPrefix(data[..], was, |was|, IVICV, IVICV + n);
      PrefixOfPrefix(data[..], was, |was|, 10);
    }

    method GiveIv(given: seq<byte>)
      requires Valid() && InBounds(options, IvData(given))
      modifies this
      ensures fresh(data) && Valid() && options == old(options) + [IvData(given)]
      ensures iv == given && icv == old(IcvAfterIv()) && priv == old(priv).(ivlen := |given|)
      ensures data[..10] == old(data[..10]) && modified == old(modified)
    {
      hide Holds, HoldsIcv, Grown, IvLength, IcvLength, Allocated, BeyondMinimum, InBounds, Growth, AllInBounds;
      OneMoreIv(options, given);
      HoldsParts(data[..], priv, iv, icv);
      ghost var was, last := data[..], data[IVICV..IVICV + |icv|];
      LastIcv();
      Enlarge(|given|, |icv|);
      priv := priv.(ivlen := |given|);
      MakeWay(given, priv.icvlen);
      SamePadLength(data[..], was);
      iv, icv, options := given, last, options + [IvData(given)];
      HoldsWhen(data[..], priv, iv, icv);
    }

    /** The ICV moves, and the IV takes its place. */
    method MakeWay(given: seq<byte>, icvlen: nat)
      requires data.Length >= IVICV + icvlen && data.Length >= IVICV + |given|
      requires icvlen > 0 ==> IcvOffset(|given|) + icvlen <= data.Length
      modifies data
      ensures HoldsIcv(data[..], |given|, old(data[IVICV..IVICV + icvlen]))
      ensures data[IVICV..IVICV + |given|] == given && data[..10] == old(data[..10])
    {
      hide HoldsIcv;
      ghost var was, last := data[..], data[IVICV..IVICV + icvlen];
      MoveIcv(|given|, icvlen);
      PrefixOfPrefix(data[..], was, IVICV + |given|, 10);
      PutIv(given, last);
    }

    /** The ICV goes behind the room of an IV of this length. */
    method PutIcv(ivlen: nat, given: seq<byte>)
      requires data.Length >= IVICV + ivlen
      requires |given| > 0 ==> IcvOffset(ivlen) + |given| <= data.Length
      modifies data
      ensures HoldsIcv(data[..], ivlen, given)
      ensures data[..IVICV + ivlen] == old(data[..IVICV + ivlen])
    {
      hide Poke, HoldsIcv;
      ghost var was := data[..];
      if |given| > 0 {
        Put(data, IcvOffset(ivlen), given);
        IcvMoved(was, ivlen, given);
      } else {
        NoIcv(was, ivlen);
        assert given == [];
      }
    }

    method GiveIcv(given: seq<byte>)
      requires Valid() && InBounds(options, IcvData(given))
      modifies this
      ensures fresh(data) && Valid() && options == old(options) + [IcvData(given)]
      ensures icv == given && iv == old(iv) && priv == old(priv).(icvlen := |given|)
      ensures data[..10] == old(data[..10]) && modified == old(modified)
    {
      hide Poke, Holds, HoldsIcv, Grown, IvLength, IcvLength, Allocated, BeyondMinimum;
      OneMore(options, IcvData(given));
      HoldsParts(data[..], priv, iv, icv);
      ghost var was := data[..];
      data := Realloc(data, data.Length + |given|);
      ghost var grown := data[..];
      SliceOfPrefix(grown, was, |was|, IVICV, IVICV + |iv|);
      priv := priv.(icvlen := |given|);
      PutIcv(priv.ivlen, given);
      SliceOfPrefix(data[..], grown, IVICV + |iv|, IVICV, IVICV + |iv|);
      PrefixOfPrefix(data[..], grown, IVICV + |iv|, 10);
      PrefixOfPrefix(grown, was, |was|, 10);
      SamePadLength(data[..], was);
      icv, options := given, options + [IcvData(given)];
      HoldsWhen(data[..], priv, iv, icv);
    }

    method GivePadding(length: byte)
      requires Valid()
      modifies this, data
      ensures data == old(data) || fresh(data)
      ensures Valid() && options == old(options) + [Padding(length)]
      ensures iv == old(iv) && icv == old(icv) && priv == old(priv) && modified == old(modified)
      ensures data[..10] == old(data[..10])[8 := length]
    {
      hide Grown, IvLength, IcvLength, Holds, Allocated;
      OneMore(options, Padding(length));
      HoldsSize(data[..], priv, iv, icv);
      ghost var was := data[..];
      data[8] := length;
      if length > ESP_MIN_PADDING {
        data := Realloc(data, data.Length + (length - ESP_MIN_PADDING));
      }
      HoldsWithPadding(was, data[..], priv, iv, icv, length);
      options := options + [Padding(length)];
    }

    /** A field of the fixed part other than the pad length. */
    method SetField(at: nat, v: seq<byte>)
      requires Valid() && (at + |v| <= 8 || (at == 9 && |v| == 1))
      modifies data
      ensures Valid()
      ensures data[..10] == Poke(old(data[..10]), at, v)
    {
      hide Holds;
      ghost var was := data[..];
      HoldsSize(was, priv, iv, icv);
      Put(data, at, v);
      assert data[..][IVICV..] == was[IVICV..];
      HoldsBehind(was, data[..], priv, iv, icv);
    }

    /** What an option changes. Padding above 255 is rejected and changes nothing. */
    method Apply(opt: Option) returns (ok: bool)
      requires Valid() && InBounds(options, opt)
      modifies this, data
      ensures data == old(data) || fresh(data)
      ensures Valid() && ok == !(opt.Padding? && opt.length > OCTET_MAX)
      ensures options == old(options) + if ok then [opt] else []
      ensures !ok ==> data == old(data) && data[..] == old(data[..]) && priv == old(priv) && modified == old(modified)
      ensures ok ==> modified == WithFlag(old(modified), opt)
      ensures iv == if opt.IvData? then opt.iv else old(iv)
      ensures icv == if opt.IcvData? then opt.icv else if opt.IvData? then old(IcvAfterIv()) else old(icv)
      ensures priv.EspPrivate? && priv.key == if opt.Key? then opt.key else old(priv).key
      ensures ok ==> data[..10] == Fixed(old(data[..10]), opt)
    {
      hide WithFlag, Holds, HoldsIcv, Poke, Grown, IvLength, IcvLength, InBounds;
      HoldsSize(data[..], priv, iv, icv);
      OneMore(options, opt);
      ghost var before := options;
      ok := true;
      match opt {
        case Spi(v) => SetField(0, v);
        case Sequence(v) => SetField(4, v);
        case Padding(length) =>
          if length > OCTET_MAX {
            return false;
          }
          GivePadding(length);
        case IvData(v) => GiveIv(v);
        case IcvData(v) => GiveIcv(v);
        case Key(v) =>
          HoldsAnyKey(data[..], priv, iv, icv, v);
          priv := priv.(key := v);
        case NextHdr(proto) => SetField(9, [proto]);
      }
      options := before + [opt];
      modified := WithFlag(modified, opt);
      HoldsSize(data[..], priv, iv, icv);
    }

    /** do_opt. Padding above 255 is rejected and changes nothing; what all options so far have given
    stays with the header. */
    method DoOpt(opt: Option) returns (ok: bool)
      requires Valid() && InBounds(options, opt)
      modifies this, data
      ensures data == old(data) || fresh(data)
      ensures Valid() && ok == !(opt.Padding? && opt.length > OCTET_MAX)
      ensures options == old(options) + if ok then [opt] else []
      ensures !ok ==> data == old(data) && data[..] == old(data[..]) && priv == old(priv) && modified == old(modified)
      ensures ok ==> modified == WithFlag(old(modified), opt)
      ensures iv == if opt.IvData? then opt.iv else old(iv)
      ensures icv == if opt.IcvData? then opt.icv else if opt.IvData? then old(IcvAfterIv()) else old(icv)
      ensures priv.EspPrivate? && priv.key == if opt.Key? then opt.key else old(priv).key
      ensures ok ==> data[..10] == Fixed(old(data[..10]), opt)
      ensures old(Matches()) ==> Matches()
    {
      hide WithFlag, Holds, HoldsIcv, Poke, Grown, IvLength, IcvLength, InBounds, Fixed, Allocated, FixedAll, FlagsAll, KeyAll;
      ghost var before := options;
      HoldsSize(data[..], priv, iv, icv);
      ok := Apply(opt);
      HoldsSize(data[..], priv, iv, icv);
      if ok {
        OneMoreFixed(before, opt);
      } else {
        assert before + [] == before;
      }
    }
  }
}
