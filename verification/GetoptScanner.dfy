/** The scanner of gnugetopt.c with its variables, which live from call to call. */
module GetoptScanner {
  import opened Getopt
  import opened Wrappers

  /** A char pointer: NULL, a place in an argument, or an empty string elsewhere. */
  datatype Pointer = Null | At(elem: nat, pos: nat) | EmptyString

  // ----- the search loops

  /** my_index, with -1 for NULL. */
  method MyIndex(str: string, chr: char) returns (k: int)
    ensures k == Index(str, chr)
  {
    k := 0;
    while k < |str|
      invariant 0 <= k <= |str| && chr !in str[..k]
    {
      if str[k] == chr {
        IndexIs(str, chr, k);
        return;
      }
      k := k + 1;
    }
    return -1;
  }

  lemma {:induction false} IndexIs(s: string, c: char, k: nat)
    requires k < |s| && s[k] == c && c !in s[..k]
    ensures Index(s, c) == k
  {
    var i := Index(s, c);
    assert c in s;
    assert forall j :: 0 <= j < k ==> s[..k][j] == s[j];
    assert forall j :: 0 <= j < i ==> s[..i][j] == s[j];
  }

  /** The loop that looks for the end of a long name. */
  method NameEnd(s: string, nextchar: nat) returns (nameend: nat)
    requires nextchar <= |s|
    ensures nameend == nextchar + |Name(s[nextchar..])|
  {
    nameend := nextchar;
    while nameend < |s| && s[nameend] != '='
      invariant nextchar <= nameend <= |s| && '=' !in s[nextchar..nameend]
    {
      nameend := nameend + 1;
    }
    var rest := s[nextchar..];
    assert rest[..nameend - nextchar] == s[nextchar..nameend];
    NameIs(rest, nameend - nextchar);
  }

  lemma NameIs(rest: string, n: nat)
    requires n <= |rest| && '=' !in rest[..n] && (n < |rest| ==> rest[n] == '=')
    ensures |Name(rest)| == n && Name(rest) == rest[..n]
  {
    var m := |Name(rest)|;
    assert Name(rest) == rest[..m];
    assert forall j :: 0 <= j < n ==> rest[..n][j] == rest[j];
    assert forall j :: 0 <= j < m ==> rest[..m][j] == rest[j];
  }

  lemma FirstIs(t: seq<LongOption>, key: string, exact: bool, k: nat)
    requires k <= |t|
    requires k < |t| ==> if exact then IsExact(t, key, k) else Abbreviates(t, key, k)
    requires forall j :: 0 <= j < k ==> !(if exact then IsExact(t, key, j) else Abbreviates(t, key, j))
    ensures First(t, key, exact, 0) == k
  {
  }

  /** The loop that tests all long options; pfound is -1 for NULL. */
  method FindLong(t: seq<LongOption>, key: string, longOnly: bool) returns (pfound: int, exact: bool, ambig: bool)
    ensures -1 <= pfound < |t|
    ensures Lookup(t, key, longOnly) ==
      if ambig && !exact then Ambiguous else if pfound == -1 then Unknown else Match(pfound)
  {
    pfound, exact, ambig := -1, false, false;
    var p := 0;
    while p < |t|
      invariant 0 <= p <= |t| && -1 <= pfound < p && !exact
      invariant forall j :: 0 <= j < p ==> !IsExact(t, key, j)
      invariant pfound == -1 ==> !ambig && forall j :: 0 <= j < p ==> !Abbreviates(t, key, j)
      invariant pfound >= 0 ==> Abbreviates(t, key, pfound) && forall j :: 0 <= j < pfound ==> !Abbreviates(t, key, j)
      invariant pfound >= 0 ==>
        (ambig <==> exists j :: pfound < j < p && Abbreviates(t, key, j) && Differ(t[pfound], t[j], longOnly))
    {
      if key <= t[p].name {
        assert Abbreviates(t, key, p);
        if |key| == |t[p].name| {
          pfound, exact := p, true;
          FirstIs(t, key, true, p);
          return;
        } else if pfound == -1 {
          pfound := p;
        } else if longOnly || t[pfound].hasArg != t[p].hasArg || t[pfound].flag != t[p].flag || t[pfound].val != t[p].val {
          ambig := true;
        }
      }
      p := p + 1;
    }
    FirstIs(t, key, true, |t|);
    FirstIs(t, key, false, if pfound == -1 then |t| else pfound);
  }

  // ----- the scanner

  /** The values an event gives the variables. */
  ghost predicate Shows(e: Event, ret: int, arg: Maybe<string>, optopt: int, optopt0: int, longind: int, longind0: int,
                        flags: map<int, int>, flags0: map<int, int>)
  {
    && ret == e.ret && arg == e.arg
    && optopt == (if e.optopt.Some? then e.optopt.value else optopt0)
    && longind == (if e.longind.Some? then e.longind.value else longind0)
    && flags == (if e.store.Some? then flags0[e.store.value.0 := e.store.value.1] else flags0)
  }

  /** The elements behind the current one. */
  lemma ArgsBehind(argv: seq<string>, i: nat, args: seq<string>)
    requires i < |argv| && args == argv[i + 1..]
    ensures |args| == |argv| - i - 1
    ensures |args| > 0 ==> args[0] == argv[i + 1] && args[1..] == argv[i + 2..]
  {
  }

  lemma ValueAt(elem: string, pos: nat, rest: string)
    requires pos <= |elem| && rest == elem[pos..]
    ensures var nameend := pos + |Name(rest)|;
      nameend <= |elem| && Value(rest) == if nameend < |elem| then Some(elem[nameend + 1..]) else None
  {
    var n := |Name(rest)|;
    if n < |rest| {
      assert rest[n + 1..] == elem[pos + n + 1..];
    }
  }

  class Scanner {
    var gnuoptarg: Maybe<string>
    var gnuoptind: nat
    var gnuoptopt: int
    var initialized: bool
    var nextchar: Pointer
    var ordering: Ordering
    var firstNonopt: nat
    var lastNonopt: nat
    /** *longind */
    var longind: int
    /** What the flag pointers point at. */
    var flags: map<int, int>

    constructor ()
      ensures Fresh() && gnuoptind == 1
    {
      gnuoptarg, gnuoptind, gnuoptopt, initialized := None, 1, '?' as int, false;
      nextchar, ordering, firstNonopt, lastNonopt := Null, RequireOrder, 0, 0;
      longind, flags := 0, map[];
    }

    /** The next call starts a new scan. */
    predicate Fresh()
      reads this
    {
      gnuoptind == 0 || !initialized
    }

    predicate Inside(argv: seq<string>)
      reads this
    {
      nextchar.At? ==> nextchar.elem < |argv| && nextchar.pos <= |argv[nextchar.elem]|
    }

    /** nextchar == NULL || *nextchar == 0 */
    predicate AtEnd(argv: seq<string>)
      reads this
      requires Inside(argv)
    {
      nextchar.At? ==> nextchar.pos == |argv[nextchar.elem]|
    }

    /** Between two calls of one scan: nextchar is at an end, or inside the current element. */
    ghost predicate Between(c: Config, argv: seq<string>)
      reads this
    {
      && !Fresh() && Inside(argv) && gnuoptind <= |argv|
      && firstNonopt == lastNonopt && ordering == OrderingOf(c.optstring)
      && (!AtEnd(argv) ==> nextchar.elem == gnuoptind && nextchar.pos >= 1 && IsOption(argv[gnuoptind]))
    }

    ghost predicate Ready(c: Config, argv: seq<string>)
      reads this
    {
      gnuoptind <= |argv| && (!Fresh() ==> Between(c, argv))
    }

    /** Where a new scan starts. */
    ghost function Start(): nat
      reads this
    {
      if gnuoptind == 0 then 1 else gnuoptind
    }

    /** What the parse says is still to come. */
    ghost function Expected(c: Config, argv: seq<string>): Outcome
      reads this
      requires |argv| > 0 && Ready(c, argv)
    {
      if Fresh() then Parse(c, Stripped(c.optstring), argv[Start()..])
      else if AtEnd(argv) then Parse(c, c.optstring, argv[gnuoptind..])
      else ParseElement(c, c.optstring, argv[gnuoptind], argv[gnuoptind][nextchar.pos..], argv[gnuoptind + 1..])
    }

    /** A scan starts behind the program name, with the option string that has lost its prefix. */
    lemma StartsBehindName(c: Config, argv: seq<string>)
      requires |argv| > 0 && Ready(c, argv) && gnuoptind == 0
      ensures Expected(c, argv) == Parse(c, Stripped(c.optstring), argv[1..])
    {
    }

    /** The characters still to be scanned. */
    ghost function Remaining(c: Config, argv: seq<string>): nat
      reads this
      requires |argv| > 0 && Ready(c, argv)
    {
      if Fresh() then Size(argv[Start()..])
      else if AtEnd(argv) then Size(argv[gnuoptind..])
      else |argv[gnuoptind]| - nextchar.pos + Size(argv[gnuoptind + 1..])
    }

    /** The scan has come to a decoded option's end. */
    ghost predicate After(c: Config, argv: seq<string>, elem: string, d: Decoded)
      reads this
    {
      && Between(c, argv)
      && if d.rest == "" then AtEnd(argv) && argv[gnuoptind..] == d.args
         else !AtEnd(argv) && argv[gnuoptind] == elem && elem[nextchar.pos..] == d.rest && argv[gnuoptind + 1..] == d.args
    }

    /** _getopt_initialize */
    method Initialize(optstring: string) returns (opts: string)
      modifies this
      ensures opts == Stripped(optstring) && ordering == OrderingOf(optstring) && nextchar == Null
      ensures firstNonopt == lastNonopt
      ensures unchanged(`gnuoptarg) && unchanged(`gnuoptind) && unchanged(`gnuoptopt) && unchanged(`initialized)
      ensures unchanged(`longind) && unchanged(`flags)
    {
      firstNonopt, lastNonopt := gnuoptind, gnuoptind;
      nextchar := Null;
      if Starts(optstring, '-') {
        ordering := ReturnInOrder;
        opts := optstring[1..];
      } else if Starts(optstring, '+') {
        ordering := RequireOrder;
        opts := optstring[1..];
      } else {
        ordering := RequireOrder;
        opts := optstring;
      }
    }

    /** Advances to the next element; `done` with the result if it is not an option. */
    method NextElement(c: Config, argv: seq<string>) returns (done: bool, ret: int)
      requires Between(c, argv) && AtEnd(argv)
      modifies this`gnuoptarg, this`gnuoptind, this`nextchar, this`firstNonopt, this`lastNonopt
      ensures var args := argv[old(gnuoptind)..];
        if |args| == 0 || args[0] == "--" || (!IsOption(args[0]) && ordering == RequireOrder) then
          done && ret == -1 && 1 <= gnuoptind <= |argv|
          && argv[gnuoptind..] == (if |args| > 0 && args[0] == "--" then args[1..] else args)
        else if !IsOption(args[0]) then
          done && ret == 1 && gnuoptarg == Some(args[0]) && gnuoptind == old(gnuoptind) + 1 && Between(c, argv) && AtEnd(argv)
        else
          !done && gnuoptind == old(gnuoptind) && gnuoptarg == old(gnuoptarg) && Between(c, argv) && !AtEnd(argv)
          && args[0][nextchar.pos..] == Body(c, args[0])
    {
      if lastNonopt > gnuoptind {
        lastNonopt := gnuoptind;
      }
      if firstNonopt > gnuoptind {
        firstNonopt := gnuoptind;
      }
      if gnuoptind != |argv| && argv[gnuoptind] == "--" {
        gnuoptind := gnuoptind + 1;
        if firstNonopt != lastNonopt && lastNonopt != gnuoptind {
          firstNonopt := gnuoptind;
        } else if firstNonopt == lastNonopt {
          firstNonopt := gnuoptind;
        }
        lastNonopt := |argv|;
        gnuoptind := |argv|;
      }
      if gnuoptind == |argv| {
        if firstNonopt != lastNonopt {
          gnuoptind := firstNonopt;
        }
        return true, -1;
      }
      if !IsOption(argv[gnuoptind]) {
        if ordering == RequireOrder {
          return true, -1;
        }
        gnuoptarg := Some(argv[gnuoptind]);
        gnuoptind := gnuoptind + 1;
        return true, 1;
      }
      nextchar := At(gnuoptind, if c.longs.Table? && argv[gnuoptind][1] == '-' then 2 else 1);
      return false, 0;
    }

    /** nextchar += strlen (nextchar) */
    method SkipElement(argv: seq<string>)
      requires Inside(argv)
      modifies this`nextchar
      ensures Inside(argv) && AtEnd(argv)
    {
      if nextchar.At? {
        nextchar := nextchar.(pos := |argv[nextchar.elem]|);
      }
    }

    /** The scan is inside `elem`, of which `rest` is left; `args` are the elements behind. */
    ghost predicate Within(c: Config, argv: seq<string>, elem: string, rest: string, args: seq<string>)
      reads this
    {
      && Between(c, argv) && !AtEnd(argv)
      && argv[gnuoptind] == elem && elem[nextchar.pos..] == rest && argv[gnuoptind + 1..] == args
    }

    /** The argument of a long option: behind the '=', or the next element; `bad` with the result
    if there is one too many or too few. */
    method LongArgument(opts: string, argv: seq<string>, pfound: LongOption, k: nat, e: string, nameend: nat, ghost args: seq<string>)
      returns (bad: bool, ret: int)
      requires gnuoptarg == None && gnuoptind <= |argv| && args == argv[gnuoptind..] && nameend <= |e|
      modifies this`gnuoptarg, this`gnuoptind, this`gnuoptopt
      ensures old(gnuoptind) <= gnuoptind <= |argv|
      ensures var d := DecodeLong(opts, pfound, k, if nameend < |e| then Some(e[nameend + 1..]) else None, args);
        && argv[gnuoptind..] == d.args && d.rest == ""
        && if bad then Shows(d.event, ret, gnuoptarg, gnuoptopt, old(gnuoptopt), longind, longind, flags, flags)
           else d.event == Success(pfound, k, gnuoptarg) && gnuoptopt == old(gnuoptopt)
    {
      bad, ret := false, 0;
      if nameend < |e| {
        if pfound.hasArg != 0 {
          gnuoptarg := Some(e[nameend + 1..]);
        } else {
          gnuoptopt := pfound.val;
          return true, '?' as int;
        }
      } else if pfound.hasArg == 1 {
        if gnuoptind < |argv| {
          gnuoptarg := Some(argv[gnuoptind]);
          gnuoptind := gnuoptind + 1;
        } else {
          gnuoptopt := pfound.val;
          return true, if Starts(opts, ':') then ':' as int else '?' as int;
        }
      }
    }

    /** A long option has been found. */
    method LongFound(c: Config, opts: string, argv: seq<string>, optionIndex: nat, nameend: nat,
                     ghost elem: string, ghost rest: string, ghost args: seq<string>)
      returns (ret: int)
      requires Within(c, argv, elem, rest, args) && gnuoptarg == None
      requires c.longs.Table? && optionIndex < |c.longs.options|
      requires nameend == nextchar.pos + |Name(rest)|
      modifies this`gnuoptarg, this`gnuoptind, this`gnuoptopt, this`nextchar, this`longind, this`flags
      ensures var d := DecodeLong(opts, c.longs.options[optionIndex], optionIndex, Value(rest), args);
        After(c, argv, elem, d) && Shows(d.event, ret, gnuoptarg, gnuoptopt, old(gnuoptopt), longind, old(longind), flags, old(flags))
    {
      hide Name, Value, OrderingOf, IsOption, DecodeLong;
      ArgsBehind(argv, gnuoptind, args);
      ValueAt(elem, nextchar.pos, rest);
      var pfound := c.longs.options[optionIndex];
      gnuoptind := gnuoptind + 1;
      var bad;
      bad, ret := LongArgument(opts, argv, pfound, optionIndex, argv[gnuoptind - 1], nameend, args);
      SkipElement(argv);
      if bad {
        return;
      }
      longind := optionIndex;
      if pfound.flag != 0 {
        flags := flags[pfound.flag := pfound.val];
        return 0;
      }
      return pfound.val;
    }

    /** The long branch; not done if the element is to be taken as short options after all. */
    method TryLong(c: Config, opts: string, argv: seq<string>, ghost elem: string, ghost rest: string, ghost args: seq<string>)
      returns (done: bool, ret: int)
      requires Within(c, argv, elem, rest, args) && gnuoptarg == None && TriesLong(c, opts, elem)
      modifies this`gnuoptarg, this`gnuoptind, this`gnuoptopt, this`nextchar, this`longind, this`flags
      ensures done ==> var d := Decode(c, opts, elem, rest, args);
        After(c, argv, elem, d) && Shows(d.event, ret, gnuoptarg, gnuoptopt, old(gnuoptopt), longind, old(longind), flags, old(flags))
      ensures !done ==> unchanged(this) && Decode(c, opts, elem, rest, args) == DecodeShort(opts, rest, args)
    {
      hide Lookup, DecodeLong, DecodeShort, Name, Value, OrderingOf;
      var nameend := NameEnd(argv[gnuoptind], nextchar.pos);
      var key := argv[gnuoptind][nextchar.pos..nameend];
      assert key == Name(rest) by {
        assert key == rest[..|Name(rest)|];
      }
      var pfound, exact, ambig := FindLong(c.longs.options, key, c.longOnly);
      if ambig && !exact {
        SkipElement(argv);
        gnuoptind := gnuoptind + 1;
        gnuoptopt := 0;
        return true, '?' as int;
      }
      if pfound != -1 {
        ret := LongFound(c, opts, argv, pfound, nameend, elem, rest, args);
        return true, ret;
      }
      var valid := MyIndex(opts, argv[gnuoptind][nextchar.pos]);
      if !c.longOnly || argv[gnuoptind][1] == '-' || valid == -1 {
        nextchar := EmptyString;
        gnuoptind := gnuoptind + 1;
        gnuoptopt := 0;
        return true, '?' as int;
      }
      return false, 0;
    }

    /** The argument of a short option that takes one: the rest of the element, or the next one. */
    method TakeArgument(opts: string, argv: seq<string>, ch: char, optional: bool, e: string, next: nat, ghost args: seq<string>)
      returns (ret: int)
      requires next <= |e| && gnuoptarg == None && gnuoptind <= |argv|
      requires next < |e| ==> gnuoptind < |argv|
      requires args == if next < |e| then argv[gnuoptind + 1..] else argv[gnuoptind..]
      modifies this`gnuoptarg, this`gnuoptind, this`gnuoptopt, this`nextchar
      ensures nextchar == Null && old(gnuoptind) <= gnuoptind <= |argv|
      ensures var d := WithArgument(opts, ch, optional, e[next..], args);
        argv[gnuoptind..] == d.args
        && Shows(d.event, ret, gnuoptarg, gnuoptopt, old(gnuoptopt), longind, longind, flags, flags)
    {
      ret := ch as int;
      if next < |e| {
        gnuoptarg := Some(e[next..]);
        gnuoptind := gnuoptind + 1;
      } else if optional {
        gnuoptarg := None;
      } else if gnuoptind == |argv| {
        gnuoptopt := ch as int;
        ret := if Starts(opts, ':') then ':' as int else '?' as int;
      } else {
        gnuoptarg := Some(argv[gnuoptind]);
        gnuoptind := gnuoptind + 1;
      }
      nextchar := Null;
    }

    /** Reads the letter at nextchar; gnuoptind goes on with the last letter of its element. */
    method ReadLetter(c: Config, argv: seq<string>, ghost elem: string, ghost rest: string, ghost args: seq<string>)
      returns (ch: char, e: string, next: nat)
      requires Within(c, argv, elem, rest, args)
      modifies this`gnuoptind, this`nextchar
      ensures rest != "" && ch == rest[0] && e == elem && next <= |e| && rest[1..] == e[next..]
      ensures gnuoptind <= |argv| && (next < |e| ==> gnuoptind < |argv|)
      ensures args == if next < |e| then argv[gnuoptind + 1..] else argv[gnuoptind..]
      ensures forall d: Decoded :: d.rest == rest[1..] && d.args == args ==> After(c, argv, elem, d)
    {
      hide OrderingOf, IsOption;
      var i := gnuoptind;
      e := argv[i];
      ch := e[nextchar.pos];
      next := nextchar.pos + 1;
      nextchar := At(i, next);
      assert rest[0] == ch && rest[1..] == e[next..];
      if next == |e| {
        gnuoptind := gnuoptind + 1;
      }
    }

    /** The short option at nextchar. */
    method ShortOption(c: Config, opts: string, argv: seq<string>, ghost elem: string, ghost rest: string, ghost args: seq<string>)
      returns (ret: int)
      requires Within(c, argv, elem, rest, args) && gnuoptarg == None && !HasW(opts)
      modifies this`gnuoptarg, this`gnuoptind, this`gnuoptopt, this`nextchar
      ensures var d := DecodeShort(opts, rest, args);
        After(c, argv, elem, d) && Shows(d.event, ret, gnuoptarg, gnuoptopt, old(gnuoptopt), longind, old(longind), flags, old(flags))
    {
      hide OrderingOf, IsOption, Index, HasW, WithArgument, DecodeShort, CharIs;
      var ch, e, next := ReadLetter(c, argv, elem, rest, args);
      var temp := MyIndex(opts, ch);
      DecodeShortIs(opts, rest, args, temp);
      ghost var d := DecodeShort(opts, rest, args);
      if temp == -1 || ch == ':' {
        gnuoptopt := ch as int;
        assert After(c, argv, elem, d);
        return '?' as int;
      }
      if CharIs(opts, temp + 1, ':') {
        ret := TakeArgument(opts, argv, ch, CharIs(opts, temp + 2, ':'), e, next, args);
      } else {
        assert After(c, argv, elem, d);
        ret := ch as int;
      }
    }

    /** The option at nextchar, long or short. */
    method DecodeOption(c: Config, opts: string, argv: seq<string>, ghost elem: string, ghost rest: string, ghost args: seq<string>)
      returns (ret: int)
      requires Within(c, argv, elem, rest, args) && gnuoptarg == None && !HasW(opts)
      modifies this`gnuoptarg, this`gnuoptind, this`gnuoptopt, this`nextchar, this`longind, this`flags
      ensures var d := Decode(c, opts, elem, rest, args);
        After(c, argv, elem, d) && Shows(d.event, ret, gnuoptarg, gnuoptopt, old(gnuoptopt), longind, old(longind), flags, old(flags))
    {
      hide Decode, DecodeShort, TriesLong, HasW, Shows, OrderingOf;
      var e := argv[gnuoptind];
      var letter := MyIndex(opts, e[1]);
      TriesLongWhen(c, opts, e);
      if c.longs.Table? && (e[1] == '-' || (c.longOnly && (|e| > 2 || letter == -1))) {
        var done;
        done, ret := TryLong(c, opts, argv, elem, rest, args);
        if done {
          return;
        }
      } else {
        DecodesShort(c, opts, elem, rest, args);
      }
      ret := ShortOption(c, opts, argv, elem, rest, args);
    }

    lemma ExpectedAfter(c: Config, argv: seq<string>, elem: string, d: Decoded)
      requires |argv| > 0 && After(c, argv, elem, d)
      ensures Expected(c, argv) == if d.rest == "" then Parse(c, c.optstring, d.args)
                                   else ParseElement(c, c.optstring, elem, d.rest, d.args)
      ensures Remaining(c, argv) == |d.rest| + Size(d.args)
    {
      hide Parse, ParseElement, Size, OrderingOf;
    }

    /** Initializes on the first call of a scan. */
    method Begin(c: Config, argv: seq<string>) returns (opts: string)
      requires |argv| > 0 && Ready(c, argv) && !HasW(c.optstring)
      modifies this
      ensures unchanged(`gnuoptopt) && unchanged(`longind) && unchanged(`flags)
      ensures Between(c, argv) && gnuoptarg == None && !HasW(opts)
      ensures old(Expected(c, argv)) ==
        if AtEnd(argv) then Parse(c, opts, argv[gnuoptind..])
        else ParseElement(c, opts, argv[gnuoptind], argv[gnuoptind][nextchar.pos..], argv[gnuoptind + 1..])
      ensures old(Remaining(c, argv)) ==
        if AtEnd(argv) then Size(argv[gnuoptind..]) else |argv[gnuoptind][nextchar.pos..]| + Size(argv[gnuoptind + 1..])
    {
      hide HasW, Size, Parse, ParseElement;
      gnuoptarg := None;
      opts := c.optstring;
      if gnuoptind == 0 || !initialized {
        if gnuoptind == 0 {
          gnuoptind := 1;
        }
        opts := Initialize(opts);
        initialized := true;
        StrippedHasNoW(c.optstring);
      }
    }

    /** The scan has ended, or given an argument that is no option. */
    ghost predicate Passed(c: Config, argv: seq<string>, ret: int, o: Outcome)
      reads this
    {
      && gnuoptind <= |argv|
      && var args := argv[gnuoptind..];
         if |o.events| == 0 then ret == -1 && 1 <= gnuoptind && args == o.operands
         else
           After(c, argv, "", Decoded(Plain(ret, gnuoptarg), "", args))
           && o == Before(Plain(ret, gnuoptarg), Parse(c, c.optstring, args))
    }

    /** The beginning of a call, up to an option or the end of the scan. */
    method Resume(c: Config, argv: seq<string>)
      returns (opts: string, done: bool, ret: int, ghost elem: string, ghost rest: string, ghost args: seq<string>)
      requires |argv| > 0 && Ready(c, argv) && !HasW(c.optstring)
      modifies this
      ensures unchanged(`gnuoptopt) && unchanged(`longind) && unchanged(`flags)
      ensures !done ==>
        Within(c, argv, elem, rest, args) && gnuoptarg == None && !HasW(opts)
        && old(Expected(c, argv)) == ParseElement(c, opts, elem, rest, args)
        && |rest| + Size(args) <= old(Remaining(c, argv))
      ensures done ==> Passed(c, argv, ret, old(Expected(c, argv)))
      ensures done && |old(Expected(c, argv)).events| > 0 ==> Size(argv[gnuoptind..]) < old(Remaining(c, argv))
    {
      hide HasW, Body, Size, ParseElement, OrderingOf, Parse;
      opts := Begin(c, argv);
      elem, rest, args := "", "", [];
      if !AtEnd(argv) {
        elem, rest, args := argv[gnuoptind], argv[gnuoptind][nextchar.pos..], argv[gnuoptind + 1..];
        return opts, false, 0, elem, rest, args;
      }
      ghost var before, at := argv[gnuoptind..], gnuoptind;
      done, ret := NextElement(c, argv);
      SizeOfTail(before);
      ParseStep(c, opts, before);
      if |before| > 0 {
        assert before[1..] == argv[at + 1..];
        if !done {
          elem, rest, args := before[0], Body(c, before[0]), before[1..];
          BodyIsShorter(c, elem);
        }
      }
    }

    /** _getopt_internal: one call gives the next event of the parse and leaves the rest, or, when
    there is none, ends the scan at the first operand. */
    method GetoptInternal(c: Config, argv: seq<string>) returns (ret: int)
      requires |argv| > 0 ==> Ready(c, argv)
      requires !HasW(c.optstring)
      modifies this
      ensures |argv| == 0 ==> ret == -1 && unchanged(this)
      ensures |argv| > 0 ==> var o := old(Expected(c, argv));
        if |o.events| == 0 then ret == -1 && 1 <= gnuoptind <= |argv| && argv[gnuoptind..] == o.operands
        else
          Between(c, argv) && Expected(c, argv) == Outcome(o.events[1..], o.operands)
          && Shows(o.events[0], ret, gnuoptarg, gnuoptopt, old(gnuoptopt), longind, old(longind), flags, old(flags))
          && Remaining(c, argv) < old(Remaining(c, argv))
    {
      if |argv| < 1 {
        return -1;
      }
      hide Decode, HasW, Size, Parse, OrderingOf;
      ghost var all := Expected(c, argv);
      ghost var elem, rest, args;
      var opts, done;
      opts, done, ret, elem, rest, args := Resume(c, argv);
      ghost var d := Decoded(Plain(ret, gnuoptarg), "", if gnuoptind <= |argv| then argv[gnuoptind..] else []);
      if !done {
        ret := DecodeOption(c, opts, argv, elem, rest, args);
        d := Decode(c, opts, elem, rest, args);
        DecodeShrinks(c, opts, elem, rest, args);
        ExpectedAfter(c, argv, elem, d);
      } else if |all.events| > 0 {
        ExpectedAfter(c, argv, "", d);
      }
    }

    /** Calls until -1, as the main program does: all events of the one-pass parse in their order,
    and gnuoptind at the first operand. No long option may have the value -1. */
    method Scan(c: Config, argv: seq<string>) returns (rets: seq<int>, arguments: seq<Maybe<string>>)
      requires |argv| > 0 && Ready(c, argv) && !HasW(c.optstring)
      requires forall e :: e in Expected(c, argv).events ==> e.ret != -1
      modifies this
      ensures var o := old(Expected(c, argv));
        && |rets| == |arguments| == |o.events|
        && (forall k :: 0 <= k < |o.events| ==> rets[k] == o.events[k].ret && arguments[k] == o.events[k].arg)
        && 1 <= gnuoptind <= |argv| && argv[gnuoptind..] == o.operands
    {
      hide Expected, Remaining, HasW, OrderingOf;
      ghost var o := Expected(c, argv);
      rets, arguments := [], [];
      var ret := GetoptInternal(c, argv);
      while ret != -1
        invariant |rets| == |arguments| <= |o.events|
        invariant forall k :: 0 <= k < |rets| ==> rets[k] == o.events[k].ret && arguments[k] == o.events[k].arg
        invariant ret != -1 ==>
          |rets| < |o.events| && Ready(c, argv)
          && ret == o.events[|rets|].ret && gnuoptarg == o.events[|rets|].arg
          && Expected(c, argv) == Outcome(o.events[|rets| + 1..], o.operands)
        invariant ret == -1 ==> |rets| == |o.events| && 1 <= gnuoptind <= |argv| && argv[gnuoptind..] == o.operands
        decreases if ret == -1 then 0 else Remaining(c, argv) + 1
      {
        rets, arguments := rets + [ret], arguments + [gnuoptarg];
        ret := GetoptInternal(c, argv);
      }
    }
  }

  lemma StrippedHasNoW(s: string)
    requires !HasW(s)
    ensures !HasW(Stripped(s))
  {
    var t := Stripped(s);
    forall k | 0 <= k < |t| - 1 && t != s ensures t[k] != 'W' || t[k + 1] != ';' {
      assert t[k] == s[k + 1] && t[k + 1] == s[k + 1 + 1];
    }
  }

  lemma TriesLongWhen(c: Config, opts: string, e: string)
    requires IsOption(e)
    ensures TriesLong(c, opts, e) == (c.longs.Table? && (e[1] == '-' || (c.longOnly && (|e| > 2 || Index(opts, e[1]) == -1))))
  {
  }

  lemma DecodesShort(c: Config, opts: string, elem: string, rest: string, args: seq<string>)
    requires IsOption(elem) && rest != "" && !TriesLong(c, opts, elem)
    ensures Decode(c, opts, elem, rest, args) == DecodeShort(opts, rest, args)
  {
  }

  lemma DecodeShortIs(opts: string, rest: string, args: seq<string>, k: int)
    requires rest != "" && k == Index(opts, rest[0])
    ensures DecodeShort(opts, rest, args) ==
      if k == -1 || rest[0] == ':' then Decoded(Complaint('?', rest[0] as int), rest[1..], args)
      else if CharIs(opts, k + 1, ':') then WithArgument(opts, rest[0], CharIs(opts, k + 2, ':'), rest[1..], args)
      else Decoded(Plain(rest[0] as int, None), rest[1..], args)
  {
  }

  lemma ParseStep(c: Config, opts: string, args: seq<string>)
    ensures Parse(c, opts, args) ==
      if |args| == 0 then Outcome([], [])
      else if args[0] == "--" then Outcome([], args[1..])
      else if IsOption(args[0]) then ParseElement(c, opts, args[0], Body(c, args[0]), args[1..])
      else if OrderingOf(c.optstring) == RequireOrder then Outcome([], args)
      else Before(Plain(1, Some(args[0])), Parse(c, c.optstring, args[1..]))
  {
  }

  lemma BodyIsShorter(c: Config, e: string)
    requires IsOption(e)
    ensures |Body(c, e)| < |e|
  {
  }
}
