/** gre.c: the flags a run of options leaves, and the checksum finalize makes of them. */
module GreChecksum {
  import opened Bytes
  import opened GreOptions
  import opened Wrappers
  import Csum
  import Fields
  import Gre
  import GreRuns
  import SendipModule

  // ----- the flags of a run

  /** The flags a run of do_opt leaves. */
  function FlagsLeft(st: State, modified: bv32, opts: seq<Option>): bv32
    requires Sized(st)
    decreases |opts|
  {
    if |opts| == 0 then modified else FlagsLeft(Step(st, opts[0]), FlagsAfter(st, modified, opts[0]), opts[1..])
  }

  /** Option k is the checksum option that is accepted: the first one. */
  predicate FirstSum(opts: seq<Option>, k: int)
  {
    0 <= k < |opts| && IsSum(opts[k]) && forall j :: 0 <= j < k ==> !IsSum(opts[j])
  }

  lemma ModifiedIs(opt: Option)
    ensures SendipModule.Has(ModifiedBy(opt), 1) <==> opt.Checksum?
    ensures SendipModule.Has(ModifiedBy(opt), 2) <==> opt.Routing?
    ensures SendipModule.Has(ModifiedBy(opt), 4) <==> opt.Key?
    ensures SendipModule.Has(ModifiedBy(opt), 8) <==> opt.Sequence?
    ensures !SendipModule.Has(ModifiedBy(opt), 0xFFFF_FFF0)
  {
  }

  ghost predicate ExplicitSum(opts: seq<Option>)
  {
    exists k :: FirstSum(opts, k) && opts[k].Checksum?
  }

  lemma ExplicitSumStep(opts: seq<Option>)
    requires |opts| > 0
    ensures ExplicitSum(opts) <==> opts[0].Checksum? || (!opts[0].AutoChecksum? && ExplicitSum(opts[1..]))
  {
    var rest := opts[1..];
    if k :| FirstSum(opts, k) && opts[k].Checksum? {
      if k > 0 {
        assert opts[0] == opts[0] && !IsSum(opts[0]);
        assert forall j :: 0 <= j < k - 1 ==> rest[j] == opts[j + 1];
        assert FirstSum(rest, k - 1) && rest[k - 1].Checksum?;
      }
    }
    if opts[0].Checksum? {
      assert FirstSum(opts, 0);
    } else if !opts[0].AutoChecksum? {
      if k :| FirstSum(rest, k) && rest[k].Checksum? {
        assert forall j :: 1 <= j < k + 1 ==> opts[j] == rest[j - 1];
        assert FirstSum(opts, k + 1) && opts[k + 1].Checksum?;
      }
    }
  }

  lemma {:induction false} SumBit(st: State, modified: bv32, opts: seq<Option>)
    requires Sized(st)
    ensures SendipModule.Has(FlagsLeft(st, modified, opts), 1)
      <==> SendipModule.Has(modified, 1) || (!st.flags.csum && ExplicitSum(opts))
    decreases |opts|
  {
    hide SendipModule.Has, ExplicitSum, FlagsAfter, Step;
    if |opts| > 0 {
      ExplicitSumStep(opts);
      StepSum(st, opts[0]);
      SumAfter(st, modified, opts[0]);
      SumBit(Step(st, opts[0]), FlagsAfter(st, modified, opts[0]), opts[1..]);
    } else {
      NoExplicitSum();
    }
  }

  lemma NoExplicitSum()
    ensures !ExplicitSum([])
  {
  }

  lemma StepSum(st: State, opt: Option)
    requires Sized(st)
    ensures Step(st, opt).flags.csum <==> st.flags.csum || IsSum(opt)
  {
    hide Resized;
  }

  /** One of the options sets the bit. */
  ghost predicate Sets(opts: seq<Option>, bit: bv32)
  {
    exists k :: 0 <= k < |opts| && SendipModule.Has(ModifiedBy(opts[k]), bit)
  }

  lemma SetsStep(opts: seq<Option>, bit: bv32)
    ensures |opts| == 0 ==> !Sets(opts, bit)
    ensures |opts| > 0 ==> (Sets(opts, bit) <==> SendipModule.Has(ModifiedBy(opts[0]), bit) || Sets(opts[1..], bit))
  {
    hide SendipModule.Has, ModifiedBy;
    if |opts| > 0 {
      assert forall k :: 1 <= k < |opts| ==> opts[k] == opts[1..][k - 1];
      assert forall k :: 0 <= k < |opts[1..]| ==> opts[1..][k] == opts[k + 1];
    }
  }

  lemma AddedIs(st: State, opt: Option, bit: bv32)
    ensures SendipModule.Has(FlagAdded(st, opt), bit) <==> Accepted(st, opt) && SendipModule.Has(ModifiedBy(opt), bit)
    ensures !Accepted(st, opt) && !SendipModule.Has(1, bit) ==> !SendipModule.Has(ModifiedBy(opt), bit)
  {
    SendipModule.HasNothing(bit);
  }

  lemma AfterIs(st: State, modified: bv32, opt: Option, bit: bv32)
    ensures SendipModule.Has(FlagsAfter(st, modified, opt), bit)
      <==> SendipModule.Has(modified, bit) || SendipModule.Has(FlagAdded(st, opt), bit)
  {
    hide SendipModule.Has, FlagAdded;
    SendipModule.HasEither(modified, FlagAdded(st, opt), FlagsAfter(st, modified, opt), bit);
  }

  lemma FieldAfter(st: State, modified: bv32, opt: Option, bit: bv32)
    requires !SendipModule.Has(1, bit)
    ensures SendipModule.Has(FlagsAfter(st, modified, opt), bit)
      <==> SendipModule.Has(modified, bit) || SendipModule.Has(ModifiedBy(opt), bit)
  {
    hide SendipModule.Has, FlagAdded, FlagsAfter, ModifiedBy;
    AfterIs(st, modified, opt, bit);
    AddedIs(st, opt, bit);
  }

  lemma SumAfter(st: State, modified: bv32, opt: Option)
    ensures SendipModule.Has(FlagsAfter(st, modified, opt), 1)
      <==> SendipModule.Has(modified, 1) || (opt.Checksum? && !st.flags.csum)
  {
    hide SendipModule.Has, FlagAdded, FlagsAfter, ModifiedBy;
    AfterIs(st, modified, opt, 1);
    AddedIs(st, opt, 1);
    ModifiedIs(opt);
  }

  /** Bits that the checksum option does not set. */
  lemma {:induction false} FieldBit(st: State, modified: bv32, opts: seq<Option>, bit: bv32)
    requires Sized(st) && !SendipModule.Has(1, bit)
    ensures SendipModule.Has(FlagsLeft(st, modified, opts), bit) <==> SendipModule.Has(modified, bit) || Sets(opts, bit)
    decreases |opts|
  {
    hide SendipModule.Has, Sets, Step, Sized, FlagsAfter, ModifiedBy;
    SetsStep(opts, bit);
    if |opts| > 0 {
      StepSized(st, opts[0]);
      FieldAfter(st, modified, opts[0], bit);
      FieldBit(Step(st, opts[0]), FlagsAfter(st, modified, opts[0]), opts[1..], bit);
    }
  }

  lemma StepSized(st: State, opt: Option)
    requires Sized(st)
    ensures Sized(Step(st, opt))
  {
  }

  /** The flags of a whole run from a fresh header: the checksum's is set exactly when the checksum
  option that was accepted gave a value, and those of the other fields exactly when they were given;
  no other flag is. */
  lemma RunMarks(opts: seq<Option>)
    ensures Sized(Proper(NOTHING))
    ensures var m := FlagsLeft(Proper(NOTHING), 0, opts);
      && (SendipModule.Has(m, Gre.GRE_MOD_CHECKSUM) <==> exists k :: FirstSum(opts, k) && opts[k].Checksum?)
      && (SendipModule.Has(m, 2) <==> exists k :: 0 <= k < |opts| && opts[k].Routing?)
      && (SendipModule.Has(m, 4) <==> exists k :: 0 <= k < |opts| && opts[k].Key?)
      && (SendipModule.Has(m, 8) <==> exists k :: 0 <= k < |opts| && opts[k].Sequence?)
      && !SendipModule.Has(m, 0xFFFF_FFF0)
  {
    hide SendipModule.Has, FlagsLeft, FirstSum, ModifiedBy;
    var st := Proper(NOTHING);
    ProperIsSized(NOTHING);
    forall k | 0 <= k < |opts|
      ensures (SendipModule.Has(ModifiedBy(opts[k]), 2) <==> opts[k].Routing?)
        && (SendipModule.Has(ModifiedBy(opts[k]), 4) <==> opts[k].Key?)
        && (SendipModule.Has(ModifiedBy(opts[k]), 8) <==> opts[k].Sequence?)
        && !SendipModule.Has(ModifiedBy(opts[k]), 0xFFFF_FFF0)
    {
      ModifiedIs(opts[k]);
    }
    OneIsOne();
    SendipModule.HasNothing(1);
    SendipModule.HasNothing(2);
    SendipModule.HasNothing(4);
    SendipModule.HasNothing(8);
    SendipModule.HasNothing(0xFFFF_FFF0);
    SumBit(st, 0, opts);
    FieldBit(st, 0, opts, 2);
    FieldBit(st, 0, opts, 4);
    FieldBit(st, 0, opts, 8);
    FieldBit(st, 0, opts, 0xFFFF_FFF0);
  }

  lemma OneIsOne()
    ensures !SendipModule.Has(1, 2) && !SendipModule.Has(1, 4) && !SendipModule.Has(1, 8) && !SendipModule.Has(1, 0xFFFF_FFF0)
  {
  }

  // ----- what a receiver finds in a header

  /** RFC 1701: the four flags are the highest bits of the first byte, in this order. */
  lemma FlagBits(b: byte)
    ensures FlagsIn(b).csum <==> b >= 128
    ensures FlagsIn(b).routing <==> 64 <= b % 128
    ensures FlagsIn(b).key <==> 32 <= b % 64
    ensures FlagsIn(b).sequence <==> 16 <= b % 32
  {
  }

  /** RFC 1701: after any run in order that gives all four fields, checksum, key, sequence number and
  routing stand in this order, each as it was given last. */
  lemma FieldsStand(opts: seq<Option>)
    requires InOrder(NOTHING, opts)
    requires var g := GiveAll(NOTHING, opts); g.csum && g.routing.Some? && g.key.Some? && g.sequence.Some?
    ensures Sized(Proper(NOTHING))
    ensures var g, r := GiveAll(NOTHING, opts), Run(Proper(NOTHING), opts);
      && r.flags == Flags(true, true, true, true)
      && r.slots == [Le16(g.sum) + [0, 0], g.key.value, g.sequence.value, g.routing.value]
      && Some(g.key.value) == GreRuns.LastKey(opts) && Some(g.sequence.value) == GreRuns.LastSequence(opts)
      && Some(g.routing.value) == GreRuns.LastRouting(opts)
  {
    hide Le16, Run, InOrder, GiveAll, GreRuns.LastKey, GreRuns.LastSequence, GreRuns.LastRouting;
    RunIsProper(NOTHING, opts);
    GreRuns.GivenLast(NOTHING, opts);
  }

  // ----- the checksum of a finished header

  /** Flags of the options for other fields, none of which is one of the first four. */
  predicate Elsewhere(other: bv32)
  {
    other & 15 == 0
  }

  lemma ElsewhereKeeps(m: bv32, other: bv32)
    requires Elsewhere(other)
    ensures SendipModule.Has(m | other, Gre.GRE_MOD_CHECKSUM) == SendipModule.Has(m, Gre.GRE_MOD_CHECKSUM)
  {
    assert (m | other) & 1 == m & 1 by {
      assert other & 1 == 0 by { LowBit(other); }
      OrLow(m, other);
    }
  }

  lemma LowBit(other: bv32)
    requires other & 15 == 0
    ensures other & 1 == 0
  {
  }

  lemma OrLow(m: bv32, other: bv32)
    requires other & 1 == 0
    ensures (m | other) & 1 == m & 1
  {
  }

  /** The header as it lies in memory after a run from a fresh one. */
  function Memory(opts: seq<Option>, head: Word32, tail: Word32): (h: seq<byte>)
    ensures |h| >= 8
  {
    ProperIsSized(NOTHING);
    Flat([head] + Run(Proper(NOTHING), opts).slots + [tail])
  }

  function FinalFlags(opts: seq<Option>, other: bv32): bv32
  {
    ProperIsSized(NOTHING);
    FlagsLeft(Proper(NOTHING), 0, opts) | other
  }

  /** The first byte holds the flags the run has set. */
  predicate Heads(opts: seq<Option>, head: Word32)
  {
    ProperIsSized(NOTHING);
    FlagsIn(head[0]) == Run(Proper(NOTHING), opts).flags
  }

  lemma {:induction false} AutoGives(g: Given, opts: seq<Option>, k: nat)
    requires !g.csum && FirstSum(opts, k) && opts[k].AutoChecksum?
    ensures GiveAll(g, opts).csum && GiveAll(g, opts).sum == 0
    decreases |opts|
  {
    if k == 0 {
      SumStays(Give(g, opts[0]), opts[1..]);
    } else {
      assert !IsSum(opts[0]);
      assert forall j :: 0 <= j < k - 1 ==> opts[1..][j] == opts[j + 1];
      AutoGives(Give(g, opts[0]), opts[1..], k - 1);
    }
  }

  lemma {:induction false} SumStays(g: Given, opts: seq<Option>)
    requires g.csum
    ensures GiveAll(g, opts).csum && GiveAll(g, opts).sum == g.sum
    decreases |opts|
  {
    if |opts| > 0 {
      SumStays(Give(g, opts[0]), opts[1..]);
    }
  }

  lemma NoExplicit(opts: seq<Option>, k: nat)
    requires FirstSum(opts, k) && opts[k].AutoChecksum?
    ensures !exists j :: FirstSum(opts, j) && opts[j].Checksum?
  {
    forall j | FirstSum(opts, j) ensures j == k {
    }
  }

  /** After any run in order whose accepted checksum option is the automatic one, and with the flags
  that run has left, the finalized header verifies together with whatever it carries. */
  lemma AutoChecksumVerifies(opts: seq<Option>, k: nat, head: Word32, tail: Word32, other: bv32, innerIp: char, inside: seq<byte>)
    requires InOrder(NOTHING, opts) && FirstSum(opts, k) && opts[k].AutoChecksum?
    requires Heads(opts, head) && Elsewhere(other)
    ensures Csum.Checksum(Gre.Finalized(Memory(opts, head, tail), FinalFlags(opts, other), innerIp, inside) + inside) == 0
  {
    hide Csum.Checksum, Gre.Finalized, Present, Le16, Run, GiveAll, InOrder, Flat, FlagsLeft, FirstSum, SendipModule.Has, Elsewhere;
    ProperIsSized(NOTHING);
    RunIsProper(NOTHING, opts);
    ZeroBytes();
    AutoGives(NOTHING, opts, k);
    NoExplicit(opts, k);
    RunMarks(opts);
    ElsewhereKeeps(FlagsLeft(Proper(NOTHING), 0, opts), other);
    var g := GiveAll(NOTHING, opts);
    var words := [head] + Layout(g) + [tail];
    assert words[0] == head && words[1] == Layout(g)[0] == Le16(0) + [0, 0];
    FlatStarts(words);
    Gre.AutoChecksumVerifies(Flat(words), FinalFlags(opts, other), innerIp, inside);
  }

  // ----- an explicit checksum

  /** Once the checksum flag is set, nothing that follows touches the checksum word. */
  lemma {:induction false} SumWordStands(st: State, opts: seq<Option>)
    requires Sized(st) && st.flags.csum
    ensures var r := Run(st, opts); r.flags.csum && |r.slots| > 0 && |st.slots| > 0 && r.slots[0] == st.slots[0]
    decreases |opts|
  {
    hide Step;
    if |opts| > 0 {
      SumWordStep(st, opts[0]);
      SumWordStands(Step(st, opts[0]), opts[1..]);
    }
  }

  lemma SumWordStep(st: State, opt: Option)
    requires Sized(st) && st.flags.csum
    ensures var r := Step(st, opt); r.flags.csum && |r.slots| > 0 && |st.slots| > 0 && r.slots[0] == st.slots[0]
  {
  }

  /** What the run has in the checksum word. */
  lemma {:induction false} SumWordOf(st: State, opts: seq<Option>, k: nat)
    requires Sized(st) && !st.flags.csum && FirstSum(opts, k)
    ensures var r := Run(st, opts); r.flags.csum && |r.slots| > 0
    ensures opts[k].Checksum? ==> Run(st, opts).slots[0][..2] == Le16(opts[k].sum)
    decreases |opts|
  {
    hide Le16;
    var next := Step(st, opts[0]);
    StepSized(st, opts[0]);
    StepSum(st, opts[0]);
    if k == 0 {
      SumWordStands(next, opts[1..]);
      if opts[0].Checksum? {
        StoredSum(st, opts[0].sum);
      }
    } else {
      assert !IsSum(opts[0]);
      assert forall j :: 0 <= j < k - 1 ==> opts[1..][j] == opts[j + 1];
      SumWordOf(next, opts[1..], k - 1);
    }
  }

  lemma StoredSum(st: State, sum: word)
    requires Sized(st) && !st.flags.csum
    ensures |Step(st, Checksum(sum)).slots| > 0 && Step(st, Checksum(sum)).slots[0][..2] == Le16(sum)
  {
    hide Resized, Le16;
    ResizedFits(st.slots, st.flags, CsumField);
  }

  lemma FirstBytes(opts: seq<Option>, head: Word32, tail: Word32)
    requires Sized(Proper(NOTHING)) && |Run(Proper(NOTHING), opts).slots| > 0
    ensures var h, w := Memory(opts, head, tail), Run(Proper(NOTHING), opts).slots[0];
      h[0] == head[0] && h[4] == w[0] && h[5] == w[1]
  {
    hide Run, Flat;
    FlatStarts([head] + Run(Proper(NOTHING), opts).slots + [tail]);
  }

  /** A checksum that was given stands unchanged in the finished header after any run whatever, in
  order or not, in which its option was the accepted one. */
  lemma ExplicitSumStands(opts: seq<Option>, k: nat, head: Word32, tail: Word32, other: bv32, innerIp: char, inside: seq<byte>)
    requires FirstSum(opts, k) && opts[k].Checksum? && Elsewhere(other)
    ensures var f := Gre.Finalized(Memory(opts, head, tail), FinalFlags(opts, other), innerIp, inside);
      Word(f[4], f[5]) == opts[k].sum
  {
    hide Gre.Finalized, Run, Flat, FlagsLeft, SendipModule.Has, Elsewhere, Memory;
    ProperIsSized(NOTHING);
    SumWordOf(Proper(NOTHING), opts, k);
    RunMarks(opts);
    ElsewhereKeeps(FlagsLeft(Proper(NOTHING), 0, opts), other);
    FirstBytes(opts, head, tail);
    var h, w := Memory(opts, head, tail), Run(Proper(NOTHING), opts).slots[0];
    assert w[0] == w[..2][0] && w[1] == w[..2][1];
    assert SendipModule.Has(FinalFlags(opts, other), Gre.GRE_MOD_CHECKSUM);
    Fields.GreReads(h, FinalFlags(opts, other), innerIp, inside);
    assert [h[4], h[5]] == Le16(opts[k].sum);
  }

  // ----- an automatic one

  /** After any run whatever whose accepted checksum option is the automatic one, the finished
  header verifies exactly when the run has left zero in the checksum field, or all ones: that is
  where a key that was given between routing and the checksum option shows. */
  lemma AutoSumVerifiesIff(opts: seq<Option>, k: nat, head: Word32, tail: Word32, other: bv32, innerIp: char, inside: seq<byte>)
    requires FirstSum(opts, k) && opts[k].AutoChecksum? && Heads(opts, head) && Elsewhere(other)
    ensures Sized(Proper(NOTHING)) && |Run(Proper(NOTHING), opts).slots| > 0
    ensures var w := Run(Proper(NOTHING), opts).slots[0];
      Csum.Checksum(Gre.Finalized(Memory(opts, head, tail), FinalFlags(opts, other), innerIp, inside) + inside) == 0
      <==> (w[0] == 0 && w[1] == 0) || (w[0] == 0xFF && w[1] == 0xFF)
  {
    hide Csum.Checksum, Gre.Finalized, Run, Flat, FlagsLeft, SendipModule.Has, Elsewhere, Memory;
    ProperIsSized(NOTHING);
    SumWordOf(Proper(NOTHING), opts, k);
    NoExplicit(opts, k);
    RunMarks(opts);
    ElsewhereKeeps(FlagsLeft(Proper(NOTHING), 0, opts), other);
    FirstBytes(opts, head, tail);
    EvenMemory(opts, head, tail);
    Gre.AutoChecksumVerifiesIff(Memory(opts, head, tail), FinalFlags(opts, other), innerIp, inside);
  }

  lemma EvenMemory(opts: seq<Option>, head: Word32, tail: Word32)
    ensures |Memory(opts, head, tail)| % 2 == 0
  {
    hide Run;
    ProperIsSized(NOTHING);
  }

  /** Routing, then a key, then an automatic checksum: the key stands in the checksum field, and the
  finished header does not verify, whatever it carries. */
  lemma AutoSumOverKey(head: Word32, tail: Word32, innerIp: char, inside: seq<byte>)
    requires var opts := [Routing([1, 1, 1, 1]), Key([2, 2, 2, 2]), AutoChecksum]; Heads(opts, head)
    ensures var opts := [Routing([1, 1, 1, 1]), Key([2, 2, 2, 2]), AutoChecksum];
      Csum.Checksum(Gre.Finalized(Memory(opts, head, tail), FinalFlags(opts, 0), innerIp, inside) + inside) != 0
  {
    var r, k := Routing([1, 1, 1, 1]), Key([2, 2, 2, 2]);
    var opts := [r, k, AutoChecksum];
    assert FirstSum(opts, 2);
    NoneElsewhere();
    ThreeSteps(r, k);
    hide Csum.Checksum, Gre.Finalized, Memory, FinalFlags, Heads, Run, Step;
    AutoSumVerifiesIff(opts, 2, head, tail, 0, innerIp, inside);
  }

  lemma NoneElsewhere()
    ensures Elsewhere(0)
  {
  }

  lemma ThreeSteps(r: Option, k: Option)
    requires r == Routing([1, 1, 1, 1]) && k == Key([2, 2, 2, 2])
    ensures Sized(Proper(NOTHING))
    ensures Run(Proper(NOTHING), [r, k, AutoChecksum]).slots == [[2, 2, 2, 2], ZERO, [1, 1, 1, 1]]
  {
    KeyAfterRoutingIsMisplaced();
    var st := Run(Proper(NOTHING), [r, k]);
    assert [r, k, AutoChecksum] == [r, k] + [AutoChecksum];
    GreRuns.RunAppends(Proper(NOTHING), [r, k], [AutoChecksum]);
    RunOne(st, AutoChecksum);
    assert [r, k][1..] == [k] && [k][1..] == [];
    assert st == Step(Step(Proper(NOTHING), r), k);
    assert !st.flags.csum && st.flags.routing;
  }

  lemma RunOne(st: State, opt: Option)
    requires Sized(st)
    ensures Run(st, [opt]) == Step(st, opt)
  {
    hide Step;
    StepSized(st, opt);
    assert [opt][1..] == [];
  }
}
