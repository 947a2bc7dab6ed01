/** The options of gre.c: optional words are juggled in place as they arrive.

The header is an array of 32-bit words, each held as its four bytes in memory. Word 0 holds flags
and protocol, word 1 + n is gre_info.thirtytwo[n], called slot n here. The allocation is always
one word longer than the slots in use, because gre_header already contains the first one.
*/
module GreOptions {
  import opened Bytes
  import opened Wrappers
  import Gre
  import SendipModule

  type Word32 = s: seq<byte> | |s| == 4 witness [0, 0, 0, 0]

  const ZERO: Word32 := [0, 0, 0, 0]

  /** The options modelled: -gc, -gC, -gr, -gk and -gs with their parsed values. */
  datatype Option =
    | Checksum(sum: word)
    | AutoChecksum
    | Routing(value: Word32)
    | Key(value: Word32)
    | Sequence(value: Word32)

  /** The flag bits of the optional fields. */
  datatype Flags = Flags(csum: bool, routing: bool, key: bool, sequence: bool)

  datatype Field = CsumField | RoutingField | KeyField | SequenceField

  function Count(f: Flags): nat
  {
    (if f.csum then 1 else 0) + (if f.key then 1 else 0) + (if f.sequence then 1 else 0) + (if f.routing then 1 else 0)
  }

  function With(f: Flags, add: Field): Flags
  {
    match add
    case CsumField => f.(csum := true)
    case RoutingField => f.(routing := true)
    case KeyField => f.(key := true)
    case SequenceField => f.(sequence := true)
  }

  /** gre_where */
  function Where(f: Flags, add: Field): nat
  {
    match add
    case CsumField => 0
    case KeyField => if f.csum then 1 else 0
    case SequenceField => (if f.csum then 1 else 0) + (if f.key then 1 else 0)
    case RoutingField => (if f.key then 2 else 1) + (if f.sequence then 1 else 0)
  }

  // ----- what the code does to the slots

  function Insert(slots: seq<Word32>, at: nat): (r: seq<Word32>)
    requires at <= |slots|
    ensures |r| == |slots| + 1
  {
    slots[..at] + [ZERO] + slots[at..]
  }

  /** The slots the code counts for these flags: routing also needs the checksum word. */
  function Size(f: Flags): nat
  {
    Count(f) + (if f.routing && !f.csum then 1 else 0)
  }

  /** gre_resize on the slots of a header that has as many slots as its flags need. */
  function Resized(slots: seq<Word32>, f: Flags, add: Field): seq<Word32>
    requires |slots| == Size(f)
  {
    var f' := With(f, add);
    if f' == f then slots
    else if add.CsumField? then
      if f.routing then slots else Insert(slots, 0)
    else if f'.routing && !f'.csum then
      var slots1 := if f.routing then slots else Insert(slots, 0);
      Insert(slots1, Where(f, add))
    else Insert(slots, Where(f, add))
  }

  /** The header: flags and slots. */
  datatype State = State(flags: Flags, slots: seq<Word32>)

  predicate Sized(st: State)
  {
    |st.slots| == Size(st.flags)
  }

  lemma ResizedFits(slots: seq<Word32>, f: Flags, add: Field)
    requires |slots| == Size(f)
    ensures |Resized(slots, f, add)| == Size(With(f, add))
    ensures Where(f, add) < |Resized(slots, f, add)|
  {
  }

  function Store(st: State, add: Field, w: Word32): (r: State)
    requires Sized(st)
    ensures Sized(r)
  {
    ResizedFits(st.slots, st.flags, add);
    State(With(st.flags, add), Resized(st.slots, st.flags, add)[Where(st.flags, add) := w])
  }

  /** A checksum goes into the first half of slot 0. */
  function StoreSum(st: State, sum: word): (r: State)
    requires Sized(st)
    ensures Sized(r)
  {
    ResizedFits(st.slots, st.flags, CsumField);
    var slots := Resized(st.slots, st.flags, CsumField);
    State(With(st.flags, CsumField), slots[0 := Le16(sum) + slots[0][2..]])
  }

  /** do_opt */
  function Step(st: State, opt: Option): (r: State)
    requires Sized(st)
    ensures Sized(r)
  {
    match opt
    case Checksum(sum) => if st.flags.csum then st else StoreSum(st, sum)
    case AutoChecksum =>
      if st.flags.csum then st
      else
        ResizedFits(st.slots, st.flags, CsumField);
        State(With(st.flags, CsumField), Resized(st.slots, st.flags, CsumField))
    case Routing(v) => Store(st, RoutingField, v)
    case Key(v) => Store(st, KeyField, v)
    case Sequence(v) => Store(st, SequenceField, v)
  }

  // ----- what RFC 1701 asks for

  /** What has been given so far: the last value of each field; a sum of zero for -gC. */
  datatype Given = Given(csum: bool, sum: word, routing: Maybe<Word32>, key: Maybe<Word32>, sequence: Maybe<Word32>)

  const NOTHING := Given(false, 0, None, None, None)

  /** A second checksum option is rejected; everything else replaces what was given before. */
  function Give(g: Given, opt: Option): Given
  {
    match opt
    case Checksum(sum) => if g.csum then g else g.(csum := true, sum := sum)
    case AutoChecksum => if g.csum then g else g.(csum := true, sum := 0)
    case Routing(v) => g.(routing := Some(v))
    case Key(v) => g.(key := Some(v))
    case Sequence(v) => g.(sequence := Some(v))
  }

  function FlagsOf(g: Given): Flags
  {
    Flags(g.csum, g.routing.Some?, g.key.Some?, g.sequence.Some?)
  }

  function Present(m: Maybe<Word32>): seq<Word32>
  {
    if m.Some? then [m.value] else []
  }

  function SumWord(g: Given): seq<Word32>
  {
    if g.csum then [Le16(g.sum) + [0, 0]] else if g.routing.Some? then [ZERO] else []
  }

  /** Checksum and offset, key, sequence number, routing, in this order, each if present; the
  first word is there whenever there is routing. */
  function Layout(g: Given): seq<Word32>
  {
    SumWord(g) + Present(g.key) + Present(g.sequence) + Present(g.routing)
  }

  function Proper(g: Given): State
  {
    State(FlagsOf(g), Layout(g))
  }

  /** The slot counts the present fields of lower rank. */
  lemma ProperIsSized(g: Given)
    ensures Sized(Proper(g))
  {
  }

  // ----- exactly when a step keeps the layout

  /** The value that stands just below where a key or sequence number belongs, when routing is
  present without the checksum flag. */
  function Below(g: Given, opt: Option): Word32
  {
    if opt.Sequence? && g.key.Some? then g.key.value else ZERO
  }

  /** A key or sequence number arriving when routing is present without the checksum flag lands
  one slot too low; this goes unnoticed only if the values concerned are equal. */
  predicate Keeps(g: Given, opt: Option)
  {
    ((opt.Key? || opt.Sequence?) && g.routing.Some? && !g.csum) ==>
      (opt.value == Below(g, opt)
       && var m := if opt.Key? then g.key else g.sequence; m.Some? ==> m.value == opt.value)
  }

  /** Making room behind a, unless the field is there, and storing the value. */
  lemma StoredBetween(a: seq<Word32>, m: Maybe<Word32>, b: seq<Word32>, v: Word32)
    ensures var s := a + Present(m) + b;
      (if m.Some? then s else Insert(s, |a|))[|a| := v] == a + [v] + b
  {
    var s := a + Present(m) + b;
    var t := (if m.Some? then s else Insert(s, |a|))[|a| := v];
    var e := a + [v] + b;
    assert |t| == |e|;
    forall k | 0 <= k < |e| ensures t[k] == e[k] {
    }
  }

  lemma Regroup(a: seq<Word32>, b: seq<Word32>, c: seq<Word32>, d: seq<Word32>)
    ensures a + b + c + d == a + b + (c + d)
  {
  }

  lemma KeyInPlace(g: Given, v: Word32)
    requires g.csum || g.routing == None
    ensures Sized(Proper(g))
    ensures Step(Proper(g), Key(v)) == Proper(Give(g, Key(v)))
  {
    hide Present, SumWord, Le16;
    ProperIsSized(g);
    SumWordSize(g);
    var behind := Present(g.sequence) + Present(g.routing);
    StoredBetween(SumWord(g), g.key, behind, v);
    Regroup(SumWord(g), Present(g.key), Present(g.sequence), Present(g.routing));
    Regroup(SumWord(g), [v], Present(g.sequence), Present(g.routing));
    PresentIs(v);
    SumWordSame(g, Key(v));
  }

  lemma SequenceInPlace(g: Given, v: Word32)
    requires g.csum || g.routing == None
    ensures Sized(Proper(g))
    ensures Step(Proper(g), Sequence(v)) == Proper(Give(g, Sequence(v)))
  {
    hide Present, SumWord, Le16;
    ProperIsSized(g);
    SumWordSize(g);
    StoredBetween(SumWord(g) + Present(g.key), g.sequence, Present(g.routing), v);
    PresentIs(v);
    SumWordSame(g, Sequence(v));
  }

  lemma PresentIs(v: Word32)
    ensures Present(Some(v)) == [v]
  {
  }

  lemma SumWordSize(g: Given)
    ensures |SumWord(g)| == if g.csum || g.routing.Some? then 1 else 0
    ensures |Present(g.key)| == (if g.key.Some? then 1 else 0) && |Present(g.sequence)| == (if g.sequence.Some? then 1 else 0)
    ensures |Present(g.routing)| == if g.routing.Some? then 1 else 0
  {
  }

  lemma SumWordSame(g: Given, opt: Option)
    requires opt.Key? || opt.Sequence?
    ensures SumWord(Give(g, opt)) == SumWord(g)
  {
  }

  lemma KeyStep(g: Given, v: Word32)
    ensures Sized(Proper(g))
    ensures Step(Proper(g), Key(v)) == Proper(Give(g, Key(v))) <==> Keeps(g, Key(v))
  {
    ProperIsSized(g);
    if g.csum || g.routing == None {
      KeyInPlace(g, v);
    } else {
      var st, expected := Step(Proper(g), Key(v)), Layout(Give(g, Key(v)));
      assert expected[0] == ZERO && expected[1] == v;
      assert st.slots[0] == v;
      if g.key.Some? {
        assert st.slots[1] == g.key.value;
      } else {
        assert st.slots[1] == ZERO;
      }
      if Keeps(g, Key(v)) {
        assert forall k :: 0 <= k < |expected| ==> st.slots[k] == expected[k];
      }
    }
  }

  lemma SequenceStep(g: Given, v: Word32)
    ensures Sized(Proper(g))
    ensures Step(Proper(g), Sequence(v)) == Proper(Give(g, Sequence(v))) <==> Keeps(g, Sequence(v))
  {
    ProperIsSized(g);
    if g.csum || g.routing == None {
      SequenceInPlace(g, v);
    } else {
      var st, expected := Step(Proper(g), Sequence(v)), Layout(Give(g, Sequence(v)));
      var n := if g.key.Some? then 1 else 0;
      assert expected[n] == Below(g, Sequence(v)) && expected[n + 1] == v;
      assert st.slots[n] == v;
      if g.sequence.Some? {
        assert st.slots[n + 1] == g.sequence.value;
      } else {
        assert st.slots[n + 1] == Below(g, Sequence(v));
      }
      if Keeps(g, Sequence(v)) {
        assert forall k :: 0 <= k < |expected| ==> st.slots[k] == expected[k];
      }
    }
  }

  /** The checksum word is there, zero, before its flag is set. */
  lemma SumWordFree(g: Given)
    requires !g.csum
    ensures Sized(Proper(g))
    ensures Resized(Layout(g), FlagsOf(g), CsumField)
      == [ZERO] + (Present(g.key) + Present(g.sequence) + Present(g.routing))
  {
    ProperIsSized(g);
  }

  function SumField(opt: Option): Word32
  {
    if opt.Checksum? then Le16(opt.sum) + [0, 0] else ZERO
  }

  lemma ChecksumStep(g: Given, opt: Option)
    requires opt.Checksum? || opt.AutoChecksum?
    ensures Sized(Proper(g))
    ensures Step(Proper(g), opt) == Proper(Give(g, opt))
  {
    hide Present, Le16, Resized, Layout, SumWord, Size;
    ProperIsSized(g);
    if !g.csum {
      SumWordFree(g);
      var rest := Present(g.key) + Present(g.sequence) + Present(g.routing);
      StoresSum(FlagsOf(g), Layout(g), opt, rest);
      GivenSum(g, opt, rest);
    }
  }

  lemma StoresSum(f: Flags, slots: seq<Word32>, opt: Option, rest: seq<Word32>)
    requires (opt.Checksum? || opt.AutoChecksum?) && !f.csum
    requires Sized(State(f, slots)) && Resized(slots, f, CsumField) == [ZERO] + rest
    ensures Step(State(f, slots), opt) == State(f.(csum := true), [SumField(opt)] + rest)
  {
    hide Resized, Size, Le16;
    ResizedFits(slots, f, CsumField);
    var free := [ZERO] + rest;
    assert free[0][2..] == [0, 0];
    assert free[0 := SumField(opt)] == [SumField(opt)] + rest;
  }

  lemma SumWordGiven(g: Given, opt: Option)
    requires !g.csum && (opt.Checksum? || opt.AutoChecksum?)
    ensures SumWord(Give(g, opt)) == [SumField(opt)]
  {
    hide Le16;
    ZeroWord();
  }

  lemma ZeroWord()
    ensures Le16(0) + [0, 0] == ZERO
  {
    ZeroBytes();
    assert [0, 0] + [0, 0] == [0, 0, 0, 0];
  }

  lemma RegroupAll(a: seq<Word32>, b: seq<Word32>, c: seq<Word32>, d: seq<Word32>)
    ensures a + b + c + d == a + (b + c + d)
  {
  }

  lemma GivenSum(g: Given, opt: Option, rest: seq<Word32>)
    requires !g.csum && (opt.Checksum? || opt.AutoChecksum?)
    requires rest == Present(g.key) + Present(g.sequence) + Present(g.routing)
    ensures Layout(Give(g, opt)) == [SumField(opt)] + rest
  {
    hide Present, Le16, SumWord, SumField;
    SumWordGiven(g, opt);
    RegroupAll([SumField(opt)], Present(g.key), Present(g.sequence), Present(g.routing));
  }

  lemma ZeroBytes()
    ensures Le16(0) == [0, 0]
  {
  }

  lemma InsertedAtEnds(s: seq<Word32>)
    ensures Insert(s, |s|) == s + [ZERO] && Insert(s, 0) == [ZERO] + s
  {
  }

  lemma LastReplaced(s: seq<Word32>, x: Word32, v: Word32)
    ensures (s + [x])[|s| := v] == s + [v]
  {
  }

  lemma RoutingStep(g: Given, v: Word32)
    ensures Sized(Proper(g))
    ensures Step(Proper(g), Routing(v)) == Proper(Give(g, Routing(v)))
  {
    hide Present, SumWord, Le16, Insert;
    ProperIsSized(g);
    SumWordSize(g);
    PresentIs(v);
    RoutingSum(g, v);
    var front := SumWord(Give(g, Routing(v))) + Present(g.key) + Present(g.sequence);
    SumWordSize(Give(g, Routing(v)));
    if g.routing.Some? {
      PresentIs(g.routing.value);
      LastReplaced(front, g.routing.value, v);
    } else {
      NothingPresent();
      LastReplaced(front, ZERO, v);
      InsertedAtEnds(front);
      InsertedAtEnds(Layout(g));
      if g.csum {
        assert Layout(g) == front;
      } else {
        assert Layout(g) == Present(g.key) + Present(g.sequence);
        assert front == [ZERO] + Layout(g);
      }
    }
  }

  /** Routing brings its word, free, in front. */
  lemma RoutingSum(g: Given, v: Word32)
    ensures SumWord(Give(g, Routing(v))) == if g.csum || g.routing.Some? then SumWord(g) else [ZERO]
    ensures !g.csum && g.routing == None ==> SumWord(g) == []
  {
    hide Le16;
  }

  lemma NothingPresent()
    ensures Present(None) == []
  {
  }

  /** A step from a proper header ends in the proper header for what is then given, exactly when
  the caller did not give key or sequence number between routing and checksum. */
  lemma StepKeepsIff(g: Given, opt: Option)
    ensures Sized(Proper(g))
    ensures Step(Proper(g), opt) == Proper(Give(g, opt)) <==> Keeps(g, opt)
  {
    match opt {
      case Key(v) => KeyStep(g, v);
      case Sequence(v) => SequenceStep(g, v);
      case Routing(v) => RoutingStep(g, v);
      case _ => ChecksumStep(g, opt);
    }
  }

  // ----- whole runs

  function Run(st: State, opts: seq<Option>): (r: State)
    requires Sized(st)
    ensures Sized(r)
    decreases |opts|
  {
    if |opts| == 0 then st else Run(Step(st, opts[0]), opts[1..])
  }

  function GiveAll(g: Given, opts: seq<Option>): Given
    decreases |opts|
  {
    if |opts| == 0 then g else GiveAll(Give(g, opts[0]), opts[1..])
  }

  /** At no time does a key or a sequence number arrive while routing is present without the
  checksum flag. */
  predicate InOrder(g: Given, opts: seq<Option>)
    decreases |opts|
  {
    |opts| > 0 ==>
      && !((opts[0].Key? || opts[0].Sequence?) && g.routing.Some? && !g.csum)
      && InOrder(Give(g, opts[0]), opts[1..])
  }

  /** Every such run ends in the layout of what was given last, however the options were ordered
  and repeated: no field is lost or misplaced by the shifting. */
  lemma {:induction false} RunIsProper(g: Given, opts: seq<Option>)
    requires InOrder(g, opts)
    ensures Sized(Proper(g))
    ensures Run(Proper(g), opts) == Proper(GiveAll(g, opts))
    decreases |opts|
  {
    ProperIsSized(g);
    if |opts| > 0 {
      StepKeepsIff(g, opts[0]);
      RunIsProper(Give(g, opts[0]), opts[1..]);
    }
  }

  /** Confluence: two runs that give the same fields the same last values end in the same header. */
  lemma Confluent(opts: seq<Option>, opts': seq<Option>)
    requires InOrder(NOTHING, opts) && InOrder(NOTHING, opts')
    requires GiveAll(NOTHING, opts) == GiveAll(NOTHING, opts')
    ensures Sized(State(Flags(false, false, false, false), []))
    ensures Run(State(Flags(false, false, false, false), []), opts) == Run(State(Flags(false, false, false, false), []), opts')
  {
    assert Proper(NOTHING) == State(Flags(false, false, false, false), []);
    RunIsProper(NOTHING, opts);
    RunIsProper(NOTHING, opts');
  }

  /** Routing, then a key: the key ends up in the checksum word. */
  lemma KeyAfterRoutingIsMisplaced()
    ensures Sized(Proper(NOTHING))
    ensures Run(Proper(NOTHING), [Routing([1, 1, 1, 1]), Key([2, 2, 2, 2])]).slots
      == [[2, 2, 2, 2], ZERO, [1, 1, 1, 1]]
    ensures Layout(GiveAll(NOTHING, [Routing([1, 1, 1, 1]), Key([2, 2, 2, 2])]))
      == [ZERO, [2, 2, 2, 2], [1, 1, 1, 1]]
  {
    var r, k := Routing([1, 1, 1, 1]), Key([2, 2, 2, 2]);
    assert [r, k][1..] == [k] && [k][1..] == [];
    var st := Step(Proper(NOTHING), r);
    assert st.slots == [ZERO, [1, 1, 1, 1]];
    assert Step(st, k).slots == [[2, 2, 2, 2], ZERO, [1, 1, 1, 1]];
  }

  // ----- the flag byte

  function FlagsIn(b: byte): Flags
  {
    Flags(Gre.Flag(b, Gre.GRE_CSUM), Gre.Flag(b, Gre.GRE_ROUTING), Gre.Flag(b, Gre.GRE_KEY), Gre.Flag(b, Gre.GRE_SEQ))
  }

  function Bit(add: Field): nat
  {
    match add
    case CsumField => Gre.GRE_CSUM
    case RoutingField => Gre.GRE_ROUTING
    case KeyField => Gre.GRE_KEY
    case SequenceField => Gre.GRE_SEQ
  }

  /** A byte put together from its four flag bits and the rest. */
  function Assembled(f: Flags, low: nat): byte
    requires low < 16
  {
    (if f.csum then 128 else 0) + (if f.routing then 64 else 0) + (if f.key then 32 else 0)
      + (if f.sequence then 16 else 0) + low
  }

  lemma AssembledFlags(f: Flags, low: nat)
    requires low < 16
    ensures FlagsIn(Assembled(f, low)) == f && Assembled(f, low) % 16 == low
  {
    var b := Assembled(f, low);
    var c, r := if f.csum then 1 else 0, if f.routing then 1 else 0;
    var k, s := if f.key then 1 else 0, if f.sequence then 1 else 0;
    Quotients(b, c, r, k, s, low);
  }

  lemma Quotients(b: byte, c: nat, r: nat, k: nat, s: nat, low: nat)
    requires c < 2 && r < 2 && k < 2 && s < 2 && low < 16
    requires b == 128 * c + 64 * r + 32 * k + 16 * s + low
    ensures b / 128 % 2 == c && b / 64 % 2 == r && b / 32 % 2 == k && b / 16 % 2 == s && b % 16 == low
  {
    assert b / 128 == c;
    assert b / 64 == 2 * c + r;
    assert b / 32 == 2 * (2 * c + r) + k;
    assert b / 16 == 2 * (4 * c + 2 * r + k) + s;
  }

  /** gre_flag |= bit */
  function WithBit(b: byte, add: Field): byte
  {
    Assembled(With(FlagsIn(b), add), b % 16)
  }

  /** Setting a bit that is clear is adding it. */
  lemma WithBitIs(b: byte, add: Field)
    ensures FlagsIn(WithBit(b, add)) == With(FlagsIn(b), add)
    ensures WithBit(b, add) % 16 == b % 16
    ensures WithBit(b, add) as nat == b as nat + (if With(FlagsIn(b), add) == FlagsIn(b) then 0 else Bit(add))
  {
    AssembledFlags(With(FlagsIn(b), add), b % 16);
    Reassembled(b);
  }

  lemma Reassembled(b: byte)
    ensures Assembled(FlagsIn(b), b % 16) == b
  {
    var hi := b / 16;
    assert b == 16 * hi + b % 16;
    assert hi == 2 * (b / 32) + hi % 2 && b / 32 == 2 * (b / 64) + b / 32 % 2 && b / 64 == 2 * (b / 128) + b / 64 % 2;
  }

  // ----- the header in memory

  class Header {
    var words: array<Word32>
    var modified: bv32

    ghost predicate Valid()
      reads this, words
    {
      words.Length >= 2 && words.Length == Size(Now()) + 2
    }

    ghost function Now(): Flags
      reads this, words
      requires words.Length > 0
    {
      FlagsIn(words[0][0])
    }

    ghost function Slots(): seq<Word32>
      reads this, words
      requires words.Length >= 2
    {
      words[1..words.Length - 1]
    }

    ghost function Contents(): (st: State)
      reads this, words
      requires Valid()
      ensures Sized(st)
    {
      State(Now(), Slots())
    }

    /** initialize */
    constructor ()
      ensures Valid() && fresh(words) && modified == 0
      ensures Contents() == Proper(NOTHING)
    {
      words := new Word32[2](_ => ZERO);
      modified := 0;
    }

    /** Shoves the slots from `at` on down by one and zeroes the one at `at`. */
    method Shift(at: nat, slots: nat, ghost was: seq<Word32>)
      requires at < slots && words.Length == slots + 2 && |was| == slots - 1
      requires words[1..slots] == was
      modifies words
      ensures words[1..slots + 1] == Insert(was, at) && words[0] == old(words[0])
    {
      ghost var head := words[0];
      var endspot := slots - 1;
      assert forall k :: 1 <= k < slots ==> words[k] == words[1..slots][k - 1];
      while endspot > at
        invariant at <= endspot < slots && words[0] == head
        invariant forall k :: 1 <= k <= endspot ==> words[k] == was[k - 1]
        invariant forall k :: endspot + 1 < k <= slots ==> words[k] == was[k - 2]
      {
        words[1 + endspot] := words[endspot];
        endspot := endspot - 1;
      }
      words[1 + at] := ZERO;
      forall k | 0 <= k < slots ensures words[1..slots + 1][k] == Insert(was, at)[k] {
        assert words[1..slots + 1][k] == words[1 + k];
      }
    }

    /** gre_resize: makes room for a field, and first for the checksum word if there is routing. */
    method Resize(flags: Flags, add: Field)
      requires words.Length == Size(flags) + 2
      modifies this`words, words
      ensures words == old(words) || fresh(words)
      ensures words.Length == Size(With(flags, add)) + 2
      ensures words[0] == old(words[0])
      ensures Slots() == Resized(old(Slots()), flags, add)
      decreases if add.CsumField? then 0 else 1
    {
      ghost var slots := Slots();
      ResizedFits(slots, flags, add);
      var newflags := With(flags, add);
      if newflags == flags {
        return;
      }
      var size := 2 + Count(newflags);
      if newflags.routing && !newflags.csum {
        Resize(flags, CsumField);
        size := size + 1;
      }
      if words.Length >= size {
        return;
      }
      MakeRoom(size, Where(flags, add));
    }

    /** realloc by one word, and the shift. */
    method MakeRoom(size: nat, at: nat)
      requires words.Length >= 2 && size == words.Length + 1 && at <= words.Length - 2
      modifies this`words
      ensures fresh(words) && words.Length == size
      ensures words[0] == old(words[0])
      ensures Slots() == Insert(old(Slots()), at)
    {
      ghost var was, n := words[..], words.Length;
      words := Realloc(words, size);
      assert words[..n][1..n - 1] == words[1..n - 1] == was[1..n - 1];
      assert words[..n][0] == was[0];
      Shift(at, size - 2, was[1..n - 1]);
    }

    method SetFlag(add: Field)
      requires words.Length >= 2
      modifies words
      ensures Now() == With(old(Now()), add)
      ensures Slots() == old(Slots())
      ensures words[0][1..] == old(words[0][1..]) && words[0][0] % 16 == old(words[0][0]) % 16
    {
      var w := words[0];
      WithBitIs(w[0], add);
      words[0] := [WithBit(w[0], add)] + w[1..];
    }

    /** A 32-bit field. */
    method StoreField(add: Field, w: Word32)
      requires Valid() && !add.CsumField?
      modifies this`words, words
      ensures words == old(words) || fresh(words)
      ensures Valid() && Contents() == Store(old(Contents()), add, w)
      ensures words[0][1..] == old(words[0][1..]) && words[0][0] % 16 == old(words[0][0]) % 16
    {
      ghost var st := Contents();
      ResizedFits(st.slots, st.flags, add);
      var flags := FlagsIn(words[0][0]);
      Resize(flags, add);
      words[1 + Where(flags, add)] := w;
      SetFlag(add);
    }

    /** The checksum word and its flag, unless they are there: what -gc and -gC have in common. */
    method AddChecksum() returns (ok: bool)
      requires Valid()
      modifies this`words, words
      ensures words == old(words) || fresh(words)
      ensures Valid() && Contents() == Step(old(Contents()), AutoChecksum)
      ensures ok == !old(Now()).csum
      ensures words[0][1..] == old(words[0][1..]) && words[0][0] % 16 == old(words[0][0]) % 16
    {
      ghost var st := Contents();
      ResizedFits(st.slots, st.flags, CsumField);
      if FlagsIn(words[0][0]).csum {
        return false;
      }
      Resize(FlagsIn(words[0][0]), CsumField);
      SetFlag(CsumField);
      ok := true;
    }

    /** The checksum in the first half of its word. */
    method StoreSumNow(sum: word)
      requires Valid() && words.Length > 2
      modifies words
      ensures Valid() && Now() == old(Now()) && words[0] == old(words[0])
      ensures Slots() == old(Slots())[0 := Le16(sum) + old(Slots())[0][2..]]
    {
      hide Le16;
      words[1] := Le16(sum) + words[1][2..];
    }

    /** do_opt for the options modelled. */
    method DoOpt(opt: Option) returns (ok: bool)
      requires Valid()
      modifies this, words
      ensures Valid() && Contents() == Step(old(Contents()), opt)
      ensures ok <==> !((opt.Checksum? || opt.AutoChecksum?) && old(Now()).csum)
      ensures modified == FlagsAfter(old(Contents()), old(modified), opt)
      ensures words == old(words) || fresh(words)
      ensures words[0][1..] == old(words[0][1..]) && words[0][0] % 16 == old(words[0][0]) % 16
    {
      hide Resized, Le16, FlagsIn;
      ghost var st := Contents();
      ResizedFits(st.slots, st.flags, CsumField);
      ok := true;
      match opt {
        case Checksum(sum) =>
          ok := AddChecksum();
          if ok {
            StoreSumNow(sum);
            modified := modified | 1;
          }
        case AutoChecksum =>
          ok := AddChecksum();
        case Routing(v) =>
          StoreField(RoutingField, v);
          modified := modified | 2;
        case Key(v) =>
          StoreField(KeyField, v);
          modified := modified | 4;
        case Sequence(v) =>
          StoreField(SequenceField, v);
          modified := modified | 8;
      }
    }
  }

  /** The flag do_opt sets; an automatic checksum sets none, so that finalize computes it. */
  function ModifiedBy(opt: Option): bv32
  {
    match opt
    case Checksum(_) => 1
    case AutoChecksum => 0
    case Routing(_) => 2
    case Key(_) => 4
    case Sequence(_) => 8
  }

  /** A second checksum option is turned down. */
  predicate Accepted(st: State, opt: Option)
  {
    !(IsSum(opt) && st.flags.csum)
  }

  function FlagAdded(st: State, opt: Option): bv32
  {
    if Accepted(st, opt) then ModifiedBy(opt) else 0
  }

  function FlagsAfter(st: State, modified: bv32, opt: Option): bv32
  {
    modified | FlagAdded(st, opt)
  }

  predicate IsSum(opt: Option)
  {
    opt.Checksum? || opt.AutoChecksum?
  }

  // ----- the header as bytes

  function Flat(words: seq<Word32>): (r: seq<byte>)
    ensures |r| == 4 * |words|
  {
    if |words| == 0 then [] else words[0] + Flat(words[1..])
  }

  lemma FlatStarts(words: seq<Word32>)
    requires |words| >= 2
    ensures var h := Flat(words); h[0] == words[0][0] && h[4] == words[1][0] && h[5] == words[1][1]
  {
    assert Flat(words) == words[0] + (words[1] + Flat(words[1..][1..]));
  }
}
