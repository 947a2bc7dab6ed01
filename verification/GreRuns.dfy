/** Whole runs of GRE options: exactly which of them end with every field in its place, those
included that misplace a field and put it right again. */
module GreRuns {
  import opened Bytes
  import opened GreOptions
  import opened Wrappers

  predicate NoSum(opts: seq<Option>)
  {
    forall k :: 0 <= k < |opts| ==> !IsSum(opts[k])
  }

  predicate NoRouting(opts: seq<Option>)
  {
    forall k :: 0 <= k < |opts| ==> !opts[k].Routing?
  }

  function Or(m: Maybe<Word32>, n: Maybe<Word32>): Maybe<Word32>
  {
    if m.Some? then m else n
  }

  /** The last key of some options. */
  function LastKey(opts: seq<Option>): Maybe<Word32>
  {
    if |opts| == 0 then None else Or(LastKey(opts[1..]), if opts[0].Key? then Some(opts[0].value) else None)
  }

  function LastSequence(opts: seq<Option>): Maybe<Word32>
  {
    if |opts| == 0 then None else Or(LastSequence(opts[1..]), if opts[0].Sequence? then Some(opts[0].value) else None)
  }

  function LastRouting(opts: seq<Option>): Maybe<Word32>
  {
    if |opts| == 0 then None else Or(LastRouting(opts[1..]), if opts[0].Routing? then Some(opts[0].value) else None)
  }

  // ----- a header with routing, slot by slot

  /** What stands in the slots, by what they are for. */
  datatype Placed = Placed(csum: bool, first: Word32, key: Maybe<Word32>, sequence: Maybe<Word32>, routing: Word32)

  function StateOf(p: Placed): (st: State)
    ensures Sized(st)
  {
    State(Flags(p.csum, true, p.key.Some?, p.sequence.Some?), [p.first] + Present(p.key) + Present(p.sequence) + [p.routing])
  }

  /** Without the checksum flag a key goes into the first slot and a sequence number into the slot
  of the key (or the first, if there is none); what was there moves on if the field is new. */
  function PlacedStep(p: Placed, opt: Option): Placed
  {
    match opt
    case Checksum(sum) => if p.csum then p else p.(csum := true, first := Le16(sum) + p.first[2..])
    case AutoChecksum => p.(csum := true)
    case Routing(v) => p.(routing := v)
    case Key(v) =>
      if p.csum then p.(key := Some(v))
      else if p.key.Some? then p.(first := v)
      else p.(first := v, key := Some(p.first))
    case Sequence(v) =>
      if p.csum then p.(sequence := Some(v))
      else if p.key.Some? then p.(key := Some(v), sequence := Or(p.sequence, p.key))
      else p.(first := v, sequence := Or(p.sequence, Some(p.first)))
  }

  /** That is what the shifting amounts to. */
  lemma PlacedStepIs(p: Placed, opt: Option)
    ensures Step(StateOf(p), opt) == StateOf(PlacedStep(p, opt))
  {
    hide Le16;
    match opt {
      case Key(v) => PlacedKey(p, v);
      case Sequence(v) => PlacedSequence(p, v);
      case _ =>
        var st, r := Step(StateOf(p), opt), StateOf(PlacedStep(p, opt));
        assert forall k :: 0 <= k < |r.slots| ==> st.slots[k] == r.slots[k];
    }
  }

  lemma PlacedKey(p: Placed, v: Word32)
    ensures Step(StateOf(p), Key(v)) == StateOf(PlacedStep(p, Key(v)))
  {
    var st, r := Step(StateOf(p), Key(v)), StateOf(PlacedStep(p, Key(v)));
    assert |st.slots| == |r.slots|;
    assert forall k :: 0 <= k < |r.slots| ==> st.slots[k] == r.slots[k];
  }

  lemma PlacedSequence(p: Placed, v: Word32)
    ensures Step(StateOf(p), Sequence(v)) == StateOf(PlacedStep(p, Sequence(v)))
  {
    var st, r := Step(StateOf(p), Sequence(v)), StateOf(PlacedStep(p, Sequence(v)));
    assert |st.slots| == |r.slots|;
    if p.key.Some? {
      assert forall k :: 0 <= k < |r.slots| ==> st.slots[k] == r.slots[k];
    } else {
      assert forall k :: 0 <= k < |r.slots| ==> st.slots[k] == r.slots[k];
    }
  }

  // ----- many options at once

  /** A header with routing and no checksum after options that give none, in one step. */
  function Window(p: Placed, opts: seq<Option>): Placed
  {
    var k, s := LastKey(opts), LastSequence(opts);
    var moved := if p.key.Some? then p.key.value else p.first;
    Placed(p.csum,
           if k.Some? then k.value else if p.key.None? && s.Some? then s.value else p.first,
           if p.key.None? && k.None? then None else if s.Some? then s else Some(moved),
           if p.sequence.Some? || s.None? then p.sequence else Some(moved),
           if LastRouting(opts).Some? then LastRouting(opts).value else p.routing)
  }

  lemma {:induction false} WindowIs(p: Placed, opts: seq<Option>)
    requires !p.csum && NoSum(opts)
    ensures Run(StateOf(p), opts) == StateOf(Window(p, opts))
    decreases |opts|
  {
    hide StateOf, Step;
    if |opts| > 0 {
      PlacedStepIs(p, opts[0]);
      WindowIs(PlacedStep(p, opts[0]), opts[1..]);
    }
  }

  /** A header with routing and checksum after any options. */
  function Later(p: Placed, opts: seq<Option>): Placed
  {
    Placed(p.csum, p.first, Or(LastKey(opts), p.key), Or(LastSequence(opts), p.sequence),
           if LastRouting(opts).Some? then LastRouting(opts).value else p.routing)
  }

  lemma {:induction false} LaterIs(p: Placed, opts: seq<Option>)
    requires p.csum
    ensures Run(StateOf(p), opts) == StateOf(Later(p, opts))
    decreases |opts|
  {
    hide StateOf, Step;
    if |opts| > 0 {
      PlacedStepIs(p, opts[0]);
      LaterIs(PlacedStep(p, opts[0]), opts[1..]);
    }
  }

  // ----- what has been given

  lemma {:induction false} GivenLast(g: Given, opts: seq<Option>)
    ensures var r := GiveAll(g, opts);
      && r.key == Or(LastKey(opts), g.key) && r.sequence == Or(LastSequence(opts), g.sequence)
      && r.routing == Or(LastRouting(opts), g.routing)
      && (NoSum(opts) || g.csum ==> r.csum == g.csum && r.sum == g.sum)
    decreases |opts|
  {
    if |opts| > 0 {
      GivenLast(Give(g, opts[0]), opts[1..]);
      assert NoSum(opts) ==> NoSum(opts[1..]) && !IsSum(opts[0]);
    }
  }

  lemma {:induction false} GiveAppends(g: Given, a: seq<Option>, b: seq<Option>)
    ensures GiveAll(g, a + b) == GiveAll(GiveAll(g, a), b)
    decreases |a|
  {
    hide Give;
    if |a| == 0 {
      assert a + b == b;
    } else {
      GiveAppends(Give(g, a[0]), a[1..], b);
      assert (a + b)[1..] == a[1..] + b;
    }
  }

  lemma {:induction false} RunAppends(st: State, a: seq<Option>, b: seq<Option>)
    requires Sized(st)
    ensures Run(st, a + b) == Run(Run(st, a), b)
    decreases |a|
  {
    hide Step, Sized;
    if |a| == 0 {
      assert a + b == b;
    } else {
      RunAppends(Step(st, a[0]), a[1..], b);
      assert (a + b)[1..] == a[1..] + b;
    }
  }

  lemma {:induction false} EarlyIsInOrder(g: Given, opts: seq<Option>)
    requires g.routing == None && NoRouting(opts)
    ensures InOrder(g, opts)
    decreases |opts|
  {
    if |opts| > 0 {
      assert !opts[0].Routing?;
      EarlyIsInOrder(Give(g, opts[0]), opts[1..]);
    }
  }

  lemma {:induction false} NoLastRouting(opts: seq<Option>)
    requires NoRouting(opts)
    ensures LastRouting(opts) == None
    decreases |opts|
  {
    if |opts| > 0 {
      NoLastRouting(opts[1..]);
    }
  }

  /** The slots are those of the layout exactly when each holds what was given for it. */
  lemma PlacedIsProperIff(p: Placed, g: Given)
    requires g.routing.Some?
    ensures StateOf(p) == Proper(g)
      <==> p.csum == g.csum && [p.first] == SumWord(g) && p.key == g.key && p.sequence == g.sequence && Some(p.routing) == g.routing
  {
    hide Le16;
    var a, b := StateOf(p), Proper(g);
    if a == b {
      assert a.flags == b.flags && a.slots == b.slots;
      assert a.slots[0] == b.slots[0] && a.slots[|a.slots| - 1] == b.slots[|b.slots| - 1];
      assert |a.slots| > 2 ==> a.slots[1] == b.slots[1];
      assert |a.slots| > 3 ==> a.slots[2] == b.slots[2];
    }
  }

  // ----- the exact condition

  /** Options before the first routing, that routing, options up to the first checksum, and from the
  checksum on. */
  predicate Segments(pre: seq<Option>, win: seq<Option>, post: seq<Option>)
  {
    NoSum(pre) && NoRouting(pre) && NoSum(win) && (post == [] || IsSum(post[0]))
  }

  /** What key and sequence number leave in the checksum word between routing and checksum. */
  function IntoSumWord(pre: seq<Option>, win: seq<Option>): Word32
  {
    var k, s := LastKey(win), LastSequence(win);
    if k.Some? then k.value else if LastKey(pre).None? && s.Some? then s.value else ZERO
  }

  /** The key slot then holds the key: there is none, or its slot has got the last sequence number of
  the window, or else the key from before or zero, and that is the same. */
  predicate KeyRight(pre: seq<Option>, win: seq<Option>)
  {
    var k, s, k0 := Or(LastKey(win), LastKey(pre)), LastSequence(win), LastKey(pre);
    k.None? || k.value == (if s.Some? then s.value else if k0.Some? then k0.value else ZERO)
  }

  /** The sequence slot then holds the sequence number: none was given in the window, or it is that
  from before, or else the key from before or zero. */
  predicate SequenceRight(pre: seq<Option>, win: seq<Option>)
  {
    var s, s0, k0 := LastSequence(win), LastSequence(pre), LastKey(pre);
    s.None? || s.value == (if s0.Some? then s0.value else if k0.Some? then k0.value else ZERO)
  }

  /** Nothing is left in the wrong place: the checksum word is free but for what a checksum given
  outright replaces, and key and sequence number are right or are given again after the checksum. */
  predicate Unharmed(pre: seq<Option>, win: seq<Option>, post: seq<Option>)
  {
    var first := IntoSumWord(pre, win);
    && (if post != [] && post[0].Checksum? then first[2..] == [0, 0] else first == ZERO)
    && (KeyRight(pre, win) || LastKey(post).Some?)
    && (SequenceRight(pre, win) || LastSequence(post).Some?)
  }

  /** The header when routing is given for the first time. */
  lemma RoutingArrives(pre: seq<Option>, v: Word32)
    requires NoSum(pre) && NoRouting(pre)
    ensures Sized(Proper(NOTHING))
    ensures var p := Placed(false, ZERO, LastKey(pre), LastSequence(pre), v);
      && Run(Proper(NOTHING), pre + [Routing(v)]) == StateOf(p)
      && GiveAll(NOTHING, pre + [Routing(v)]) == Given(false, 0, Some(v), LastKey(pre), LastSequence(pre))
  {
    hide Step, Present, Le16, LastKey, LastSequence, InOrder;
    ProperIsSized(NOTHING);
    var g, p := GiveAll(NOTHING, pre), Placed(false, ZERO, LastKey(pre), LastSequence(pre), v);
    EarlyIsInOrder(NOTHING, pre);
    RunIsProper(NOTHING, pre);
    GivenLast(NOTHING, pre);
    NoLastRouting(pre);
    assert g == Given(false, 0, None, LastKey(pre), LastSequence(pre));
    RunAppends(Proper(NOTHING), pre, [Routing(v)]);
    GiveAppends(NOTHING, pre, [Routing(v)]);
    assert [Routing(v)][1..] == [];
    StepKeepsIff(g, Routing(v));
    PlacedIsProperIff(p, Give(g, Routing(v)));
  }

  /** The header before the first checksum. */
  lemma WindowEnds(pre: seq<Option>, v: Word32, win: seq<Option>)
    requires NoSum(pre) && NoRouting(pre) && NoSum(win)
    ensures Sized(Proper(NOTHING))
    ensures var w, g := Window(Placed(false, ZERO, LastKey(pre), LastSequence(pre), v), win), GiveAll(NOTHING, pre + [Routing(v)] + win);
      && Run(Proper(NOTHING), pre + [Routing(v)] + win) == StateOf(w)
      && !w.csum && !g.csum && g.routing == Some(w.routing)
      && g.key == Or(LastKey(win), LastKey(pre)) && g.sequence == Or(LastSequence(win), LastSequence(pre))
      && w.first == IntoSumWord(pre, win) && w.key.Some? == g.key.Some? && w.sequence.Some? == g.sequence.Some?
      && (w.key == g.key <==> KeyRight(pre, win)) && (w.sequence == g.sequence <==> SequenceRight(pre, win))
  {
    hide StateOf, LastKey, LastSequence, LastRouting, Run, GiveAll, NoSum;
    RoutingArrives(pre, v);
    var p := Placed(false, ZERO, LastKey(pre), LastSequence(pre), v);
    RunAppends(Proper(NOTHING), pre + [Routing(v)], win);
    GiveAppends(NOTHING, pre + [Routing(v)], win);
    WindowIs(p, win);
    GivenLast(GiveAll(NOTHING, pre + [Routing(v)]), win);
  }

  /** For every run that gives routing before a checksum: it ends in the layout of what was given
  last exactly when nothing is left in the wrong place. */
  lemma RunIsProperIff(pre: seq<Option>, v: Word32, win: seq<Option>, post: seq<Option>)
    requires Segments(pre, win, post)
    ensures Sized(Proper(NOTHING))
    ensures var opts := pre + [Routing(v)] + win + post;
      Run(Proper(NOTHING), opts) == Proper(GiveAll(NOTHING, opts)) <==> Unharmed(pre, win, post)
  {
    hide StateOf, Proper, LastKey, LastSequence, LastRouting, Window, Run, GiveAll, NoSum, NoRouting, Le16, KeyRight, SequenceRight,
         IntoSumWord, PlacedStep, Later, Sized;
    ProperIsSized(NOTHING);
    WindowEnds(pre, v, win);
    var w := Window(Placed(false, ZERO, LastKey(pre), LastSequence(pre), v), win);
    var g := GiveAll(NOTHING, pre + [Routing(v)] + win);
    if post == [] {
      assert pre + [Routing(v)] + win + post == pre + [Routing(v)] + win;
      PlacedIsProperIff(w, g);
      NoLast();
    } else {
      RunAppends(Proper(NOTHING), pre + [Routing(v)] + win, post);
      GiveAppends(NOTHING, pre + [Routing(v)] + win, post);
      SumArrives(w, g, post);
    }
  }

  lemma NoLast()
    ensures LastKey([]) == None && LastSequence([]) == None
  {
  }

  /** From the first checksum on. */
  lemma SumArrives(w: Placed, g: Given, post: seq<Option>)
    requires post != [] && IsSum(post[0]) && !w.csum && !g.csum && g.routing == Some(w.routing)
    ensures Sized(StateOf(w))
    ensures Run(StateOf(w), post) == Proper(GiveAll(g, post))
      <==> && (if post[0].Checksum? then w.first[2..] == [0, 0] else w.first == ZERO)
           && (w.key == g.key || LastKey(post).Some?) && (w.sequence == g.sequence || LastSequence(post).Some?)
  {
    hide StateOf, Proper, Step, Run, GiveAll, LastKey, LastSequence, LastRouting, SumWord, Le16, PlacedStep, Later, Give;
    var rest, c, h := post[1..], PlacedStep(w, post[0]), Give(g, post[0]);
    FirstOption(StateOf(w), g, post);
    PlacedStepIs(w, post[0]);
    SumFields(w, g, post[0]);
    LaterIs(c, rest);
    GivenLast(h, rest);
    SumWordIs(w, post[0], h);
    LaterFields(c, rest);
    SameSumWord(GiveAll(h, rest), h);
    PlacedIsProperIff(Later(c, rest), GiveAll(h, rest));
  }

  lemma FirstOption(st: State, g: Given, post: seq<Option>)
    requires Sized(st) && post != [] && IsSum(post[0])
    ensures Run(st, post) == Run(Step(st, post[0]), post[1..])
    ensures GiveAll(g, post) == GiveAll(Give(g, post[0]), post[1..])
    ensures LastKey(post) == LastKey(post[1..]) && LastSequence(post) == LastSequence(post[1..])
  {
    hide Step, Give, Sized;
  }

  lemma SumFields(w: Placed, g: Given, opt: Option)
    requires IsSum(opt) && !w.csum && !g.csum
    ensures var c, h := PlacedStep(w, opt), Give(g, opt);
      && c.csum && h.csum && h.sum == (if opt.Checksum? then opt.sum else 0)
      && c.key == w.key && c.sequence == w.sequence && c.routing == w.routing
      && h.key == g.key && h.sequence == g.sequence && h.routing == g.routing
  {
  }

  lemma LaterFields(c: Placed, rest: seq<Option>)
    ensures var r := Later(c, rest);
      && r.csum == c.csum && r.first == c.first
      && r.key == Or(LastKey(rest), c.key) && r.sequence == Or(LastSequence(rest), c.sequence)
      && Some(r.routing) == Or(LastRouting(rest), Some(c.routing))
  {
  }

  lemma SameSumWord(g: Given, h: Given)
    requires g.csum && h.csum && g.sum == h.sum
    ensures SumWord(g) == SumWord(h)
  {
  }

  lemma SumWordIs(w: Placed, opt: Option, h: Given)
    requires IsSum(opt) && !w.csum && h.csum && h.sum == if opt.Checksum? then opt.sum else 0
    ensures [PlacedStep(w, opt).first] == SumWord(h) <==> if opt.Checksum? then w.first[2..] == [0, 0] else w.first == ZERO
  {
    hide Le16;
    ZeroWord();
    if opt.Checksum? {
      var a, b := Le16(opt.sum) + w.first[2..], Le16(opt.sum) + [0, 0];
      assert a[2..] == w.first[2..] && b[2..] == [0, 0];
    }
  }

  // ----- every run is one or the other

  lemma {:induction false} InOrderFromSum(g: Given, opts: seq<Option>)
    requires g.csum
    ensures InOrder(g, opts)
    decreases |opts|
  {
    if |opts| > 0 {
      InOrderFromSum(Give(g, opts[0]), opts[1..]);
    }
  }

  lemma {:induction false} UpToSum(opts: seq<Option>) returns (win: seq<Option>, post: seq<Option>)
    ensures opts == win + post && NoSum(win) && (post == [] || IsSum(post[0]))
    decreases |opts|
  {
    if |opts| == 0 || IsSum(opts[0]) {
      win, post := [], opts;
    } else {
      win, post := UpToSum(opts[1..]);
      win := [opts[0]] + win;
    }
  }

  /** Either no key or sequence number comes between routing and checksum, or the run has the
  segments above. */
  lemma {:induction false} EveryRun(g: Given, opts: seq<Option>)
    returns (pre: seq<Option>, v: Word32, win: seq<Option>, post: seq<Option>)
    requires !g.csum && g.routing == None
    ensures InOrder(g, opts) || (Segments(pre, win, post) && opts == pre + [Routing(v)] + win + post)
    decreases |opts|
  {
    pre, v, win, post := [], ZERO, [], [];
    if |opts| > 0 {
      var opt, rest := opts[0], opts[1..];
      if IsSum(opt) {
        InOrderFromSum(Give(g, opt), rest);
      } else if opt.Routing? {
        v := opt.value;
        win, post := UpToSum(rest);
        assert opts == [opt] + rest == [] + [Routing(v)] + win + post;
      } else {
        pre, v, win, post := EveryRun(Give(g, opt), rest);
        if !InOrder(Give(g, opt), rest) {
          pre := [opt] + pre;
          assert opts == pre + [Routing(v)] + win + post;
        }
      }
    }
  }

  /** Routing, a key that ends in two zero bytes, a checksum, and the key again: all is in its place. */
  lemma KeyIsRepaired(v: Word32, sum: word)
    ensures Sized(Proper(NOTHING))
    ensures var k := Key([2, 2, 0, 0]);
      var opts := [] + [Routing(v)] + [k] + [Checksum(sum), k];
      !InOrder(NOTHING, opts) && Run(Proper(NOTHING), opts) == Proper(GiveAll(NOTHING, opts))
  {
    hide Run, GiveAll, Proper, Sized;
    var k := Key([2, 2, 0, 0]);
    var win, post := [k], [Checksum(sum), k];
    assert win[1..] == [] && post[1..] == [k] && [k][1..] == [];
    assert LastKey(win) == Some(k.value) && LastKey([k]) == Some(k.value) && LastKey(post) == Some(k.value);
    assert LastSequence(win) == None && LastKey([]) == None && LastSequence([]) == None;
    var opts := [] + [Routing(v)] + win + post;
    assert opts[0] == Routing(v) && opts[1..][0] == k;
    assert !InOrder(Give(NOTHING, Routing(v)), opts[1..]);
    RunIsProperIff([], v, win, post);
  }
}
