/** The option string loses a leading '-' or '+' on the first call of a scan only. What a scan says
that loses it for good, and exactly when that is what the calls say. */
module GetoptPrefix {
  import opened Getopt
  import opened Wrappers

  // ----- one short option under two option strings

  /** What an option string says of a letter. */
  function Role(opts: string, c: char): Maybe<Arity>
  {
    if c !in opts || c == ':' then None else Some(ArityOf(opts, c))
  }

  /** When two roles of a letter have the same effect; `tail` is the rest of its element, `last` says
  that no element follows, and a and b say whether a missing argument is reported with a colon. */
  predicate SameEffect(x: Maybe<Arity>, a: bool, y: Maybe<Arity>, b: bool, tail: string, last: bool)
  {
    var missing := tail == "" && last;
    match (x, y)
    case (None, None) => true
    case (None, Some(r)) => r == RequiredArgument && missing && !b
    case (Some(r), None) => r == RequiredArgument && missing && !a
    case (Some(r), Some(s)) =>
      if r == s then (r == RequiredArgument && missing ==> a == b)
      else if r == NoArgument || s == NoArgument then (r == OptionalArgument || s == OptionalArgument) && tail == ""
      else tail != ""
  }

  /** Two option strings decode a letter alike exactly when it has the same effect in both; if they
  do not, their events differ. */
  lemma DecodesAlikeIff(o: string, p: string, rest: string, args: seq<string>)
    requires rest != ""
    ensures var d, e := DecodeShort(o, rest, args), DecodeShort(p, rest, args);
      var same := SameEffect(Role(o, rest[0]), Starts(o, ':'), Role(p, rest[0]), Starts(p, ':'), rest[1..], args == []);
      (d == e <==> same) && (d.event == e.event <==> same)
  {
    hide ArityOf;
  }

  // ----- the prefix

  /** The option string with its prefix. */
  predicate Prefixed(c: Config, ch: char, s: string)
  {
    ch in "-+" && c.optstring == [ch] + s
  }

  /** What the prefix makes of its own letter: the colons that may follow it are taken for its own. */
  function LeadArity(s: string): Arity
  {
    if !CharIs(s, 0, ':') then NoArgument else if CharIs(s, 1, ':') then OptionalArgument else RequiredArgument
  }

  lemma RolesWithPrefix(ch: char, s: string, c: char)
    requires ch in "-+"
    ensures Role([ch] + s, c) == if c == ch then Some(LeadArity(s)) else Role(s, c)
    ensures !Starts([ch] + s, ':')
  {
    var o := [ch] + s;
    assert o[1..] == s;
    if c != ch && c in s {
      assert Index(o, c) == Index(s, c) + 1;
    }
  }

  /** The decoding of a short option does not notice the prefix: it is not the prefix's own letter,
  and if its argument is missing that is not reported with a colon; or it is that letter, and what
  the prefix makes of it has the effect of what the rest of the string makes of it. */
  predicate ShortAlike(ch: char, s: string, rest: string, args: seq<string>)
    requires rest != ""
  {
    var missing := |rest| == 1 && args == [];
    if rest[0] != ch then !(Starts(s, ':') && Role(s, rest[0]) == Some(RequiredArgument) && missing)
    else SameEffect(Some(LeadArity(s)), false, Role(s, ch), Starts(s, ':'), rest[1..], args == [])
  }

  lemma ShortAlikeIff(ch: char, s: string, rest: string, args: seq<string>)
    requires ch in "-+" && rest != ""
    ensures var d, e := DecodeShort([ch] + s, rest, args), DecodeShort(s, rest, args);
      (d == e <==> ShortAlike(ch, s, rest, args)) && (d.event == e.event <==> ShortAlike(ch, s, rest, args))
  {
    hide DecodeShort, Role, LeadArity;
    RolesWithPrefix(ch, s, rest[0]);
    DecodesAlikeIff([ch] + s, s, rest, args);
    assert rest[1..] == "" <==> |rest| == 1;
  }

  /** For a string that does not contain the letter of its prefix again: that letter goes unnoticed
  only where one colon follows and there is no argument; any other letter unless its argument is
  missing and the string says with a colon how to report that. */
  lemma StrangePrefixIff(ch: char, s: string, rest: string, args: seq<string>)
    requires ch in "-+" && ch !in s && rest != ""
    ensures DecodeShort([ch] + s, rest, args) == DecodeShort(s, rest, args)
      <==> if rest[0] == ch then CharIs(s, 0, ':') && !CharIs(s, 1, ':') && |rest| == 1 && args == []
           else !(Starts(s, ':') && rest[0] in s && rest[0] != ':' && ArityOf(s, rest[0]) == RequiredArgument
                  && |rest| == 1 && args == [])
  {
    hide DecodeShort, ArityOf;
    ShortAlikeIff(ch, s, rest, args);
    assert rest[1..] == "" <==> |rest| == 1;
  }

  // ----- one option, short or long

  /** What Decode does with an option it tries as a long one. */
  predicate LongAlike(c: Config, ch: char, s: string, elem: string, rest: string, args: seq<string>)
    requires IsOption(elem) && rest != "" && c.longs.Table?
  {
    match Lookup(c.longs.options, Name(rest), c.longOnly)
    case Ambiguous => true
    case Match(k) => !(Starts(s, ':') && c.longs.options[k].hasArg == 1 && Value(rest).None? && args == [])
    case Unknown =>
      if !c.longOnly || elem[1] == '-' then true
      else if rest[0] in s then ShortAlike(ch, s, rest, args)
      else rest[0] != ch
  }

  /** A call after the first says what a call without the prefix would say. */
  predicate Alike(c: Config, ch: char, s: string, elem: string, rest: string, args: seq<string>)
    requires IsOption(elem) && rest != ""
  {
    if !TriesLong(c, s, elem) then ShortAlike(ch, s, rest, args)
    else if !TriesLong(c, [ch] + s, elem) then false
    else LongAlike(c, ch, s, elem, rest, args)
  }

  /** The rest of an element, behind its initial punctuation. */
  predicate RestOf(elem: string, rest: string)
  {
    rest != "" && |rest| < |elem| && elem[|elem| - |rest|..] == rest
  }

  lemma TriesLongMore(c: Config, ch: char, s: string, elem: string)
    requires IsOption(elem)
    ensures TriesLong(c, [ch] + s, elem) ==> TriesLong(c, s, elem)
    ensures TriesLong(c, s, elem) && !TriesLong(c, [ch] + s, elem) ==>
      c.longs.Table? && c.longOnly && |elem| == 2 && elem[1] == ch && ch !in s
  {
  }

  lemma LongAlikeIff(c: Config, ch: char, s: string, elem: string, rest: string, args: seq<string>)
    requires Prefixed(c, ch, s) && IsOption(elem) && rest != ""
    requires TriesLong(c, s, elem) && TriesLong(c, [ch] + s, elem)
    ensures var d, e := Decode(c, [ch] + s, elem, rest, args), Decode(c, s, elem, rest, args);
      var same := LongAlike(c, ch, s, elem, rest, args);
      (d == e <==> same) && (d.event == e.event <==> same)
  {
    hide Lookup, Name, Value, ShortAlike, DecodeShort;
    ShortAlikeIff(ch, s, rest, args);
    if rest[0] == ch {
      NotAComplaintOfZero([ch] + s, rest, args);
    }
  }

  lemma NotAComplaintOfZero(opts: string, rest: string, args: seq<string>)
    requires rest != "" && rest[0] != '\0'
    ensures DecodeShort(opts, rest, args).event != Complaint('?', 0)
  {
  }

  /** The element "-+" alone, which only the prefix makes a short option, is always decoded otherwise. */
  lemma LoneLetterDiffers(c: Config, ch: char, s: string, elem: string, rest: string, args: seq<string>)
    requires Prefixed(c, ch, s) && IsOption(elem) && RestOf(elem, rest)
    requires TriesLong(c, s, elem) && !TriesLong(c, [ch] + s, elem)
    ensures Decode(c, [ch] + s, elem, rest, args).event != Decode(c, s, elem, rest, args).event
  {
    hide Lookup, Name;
    TriesLongMore(c, ch, s, elem);
    RolesWithPrefix(ch, s, ch);
    assert rest == [ch];
    ValueOfLetter(ch);
  }

  lemma ValueOfLetter(ch: char)
    requires ch != '='
    ensures Value([ch]) == None
  {
    assert Name([ch]) == [ch] + Name([]);
  }

  /** A call that has lost the prefix and one that has not decode an option alike exactly under the
  condition stated; if they do not, they tell the caller different things. */
  lemma AlikeIff(c: Config, ch: char, s: string, elem: string, rest: string, args: seq<string>)
    requires Prefixed(c, ch, s) && IsOption(elem) && RestOf(elem, rest)
    ensures var d, e := Decode(c, [ch] + s, elem, rest, args), Decode(c, s, elem, rest, args);
      var same := Alike(c, ch, s, elem, rest, args);
      (d == e <==> same) && (d.event == e.event <==> same)
  {
    hide TriesLong, LongAlike, ShortAlike, DecodeShort, DecodeLong, Lookup, Name, Value;
    TriesLongMore(c, ch, s, elem);
    if !TriesLong(c, s, elem) {
      ShortAlikeIff(ch, s, rest, args);
    } else if !TriesLong(c, [ch] + s, elem) {
      LoneLetterDiffers(c, ch, s, elem, rest, args);
    } else {
      LongAlikeIff(c, ch, s, elem, rest, args);
    }
  }

  // ----- whole scans

  /** The scan in which every call has lost the prefix. */
  function Steady(c: Config, s: string, args: seq<string>): Outcome
    decreases |args|, 0
  {
    if |args| == 0 then Outcome([], [])
    else if args[0] == "--" then Outcome([], args[1..])
    else if !IsOption(args[0]) then
      if OrderingOf(c.optstring) == RequireOrder then Outcome([], args)
      else Before(Plain(1, Some(args[0])), Steady(c, s, args[1..]))
    else SteadyElement(c, s, args[0], Body(c, args[0]), args[1..])
  }

  function SteadyElement(c: Config, s: string, elem: string, rest: string, args: seq<string>): Outcome
    requires IsOption(elem) && rest != ""
    decreases |args|, |rest|
  {
    var d := Decode(c, s, elem, rest, args);
    Before(d.event, if d.rest == "" then Steady(c, s, d.args) else SteadyElement(c, s, elem, d.rest, d.args))
  }

  /** No option after the first one of a scan notices the prefix. */
  predicate ScanAlike(c: Config, ch: char, s: string, first: bool, args: seq<string>)
    decreases |args|, 0
  {
    if |args| == 0 || args[0] == "--" then true
    else if !IsOption(args[0]) then
      OrderingOf(c.optstring) == RequireOrder || ScanAlike(c, ch, s, false, args[1..])
    else ElementAlike(c, ch, s, first, args[0], Body(c, args[0]), args[1..])
  }

  predicate ElementAlike(c: Config, ch: char, s: string, first: bool, elem: string, rest: string, args: seq<string>)
    requires IsOption(elem) && rest != ""
    decreases |args|, |rest|
  {
    var d := Decode(c, s, elem, rest, args);
    && (first || Alike(c, ch, s, elem, rest, args))
    && if d.rest == "" then ScanAlike(c, ch, s, false, d.args) else ElementAlike(c, ch, s, false, elem, d.rest, d.args)
  }

  lemma BodyIsRest(c: Config, e: string)
    requires IsOption(e) && e != "--"
    ensures RestOf(e, Body(c, e))
  {
  }

  lemma RestGoesOn(elem: string, rest: string)
    requires RestOf(elem, rest) && rest[1..] != ""
    ensures RestOf(elem, rest[1..])
  {
    assert elem[|elem| - |rest| + 1..] == elem[|elem| - |rest|..][1..];
  }

  /** The calls of a scan say what they would say if the prefix were lost for good exactly when no
  option after the first one notices it. */
  lemma {:induction false} ScanAlikeIff(c: Config, ch: char, s: string, first: bool, args: seq<string>)
    requires Prefixed(c, ch, s)
    ensures Parse(c, if first then s else c.optstring, args) == Steady(c, s, args) <==> ScanAlike(c, ch, s, first, args)
    decreases |args|, 0
  {
    hide Body, IsOption, Decode, Alike, OrderingOf;
    if |args| > 0 && args[0] != "--" {
      if IsOption(args[0]) {
        BodyIsRest(c, args[0]);
        ElementAlikeIff(c, ch, s, first, args[0], Body(c, args[0]), args[1..]);
      } else if OrderingOf(c.optstring) == ReturnInOrder {
        ScanAlikeIff(c, ch, s, false, args[1..]);
        SameBefore(Plain(1, Some(args[0])), Parse(c, c.optstring, args[1..]), Steady(c, s, args[1..]));
      }
    }
  }

  lemma SameBefore(e: Event, o: Outcome, p: Outcome)
    ensures Before(e, o) == Before(e, p) <==> o == p
  {
    assert ([e] + o.events)[1..] == o.events && ([e] + p.events)[1..] == p.events;
  }

  lemma OtherBefore(e: Event, o: Outcome, f: Event, p: Outcome)
    requires Before(e, o) == Before(f, p)
    ensures e == f
  {
    assert ([e] + o.events)[0] == ([f] + p.events)[0];
  }

  lemma {:induction false} ElementAlikeIff(c: Config, ch: char, s: string, first: bool, elem: string, rest: string, args: seq<string>)
    requires Prefixed(c, ch, s) && IsOption(elem) && RestOf(elem, rest)
    ensures ParseElement(c, if first then s else c.optstring, elem, rest, args) == SteadyElement(c, s, elem, rest, args)
      <==> ElementAlike(c, ch, s, first, elem, rest, args)
    decreases |args|, |rest|
  {
    hide Decode, Alike, Parse, Steady, ScanAlike, RestOf;
    RestIsThere(elem, rest);
    var opts := if first then s else c.optstring;
    var d, e := Decode(c, opts, elem, rest, args), Decode(c, s, elem, rest, args);
    var o := if d.rest == "" then Parse(c, c.optstring, d.args) else ParseElement(c, c.optstring, elem, d.rest, d.args);
    var p := if e.rest == "" then Steady(c, s, e.args) else SteadyElement(c, s, elem, e.rest, e.args);
    AlikeIff(c, ch, s, elem, rest, args);
    if d == e {
      if e.rest == "" {
        ScanAlikeIff(c, ch, s, false, e.args);
      } else {
        RestGoesOn(elem, rest);
        ElementAlikeIff(c, ch, s, false, elem, e.rest, e.args);
      }
      SameBefore(e.event, o, p);
    } else if Before(d.event, o) == Before(e.event, p) {
      OtherBefore(d.event, o, e.event, p);
    }
  }

  lemma RestIsThere(elem: string, rest: string)
    requires RestOf(elem, rest)
    ensures rest != ""
  {
  }

  // ----- command lines that never notice

  /** An element behind whose dash the prefix's letter does not come, or a long option. */
  predicate Ordinary(c: Config, ch: char, e: string)
  {
    !IsOption(e) || (c.longs.Table? && e[1] == '-') || ch !in e[1..]
  }

  lemma OrdinaryIsAlike(c: Config, ch: char, s: string, elem: string, rest: string, args: seq<string>)
    requires ch in "-+" && !Starts(s, ':') && IsOption(elem) && RestOf(elem, rest) && Ordinary(c, ch, elem)
    ensures Alike(c, ch, s, elem, rest, args)
  {
    hide Lookup, Name, Value, Role, LeadArity;
    TriesLongMore(c, ch, s, elem);
    if ch !in elem[1..] {
      assert rest[0] == elem[|elem| - |rest|] == elem[1..][|elem| - |rest| - 1];
      assert elem[1] == elem[1..][0];
    }
  }

  lemma {:induction false} OrdinaryScan(c: Config, ch: char, s: string, first: bool, args: seq<string>)
    requires ch in "-+" && !Starts(s, ':') && forall e :: e in args ==> Ordinary(c, ch, e)
    ensures ScanAlike(c, ch, s, first, args)
    decreases |args|, 0
  {
    hide Body, IsOption, Decode, Alike, OrderingOf, Ordinary, Starts;
    if |args| > 0 && args[0] != "--" {
      if IsOption(args[0]) {
        BodyIsRest(c, args[0]);
        OrdinaryElement(c, ch, s, first, args[0], Body(c, args[0]), args[1..]);
      } else {
        OrdinaryScan(c, ch, s, false, args[1..]);
      }
    }
  }

  lemma {:induction false} OrdinaryElement(c: Config, ch: char, s: string, first: bool, elem: string, rest: string, args: seq<string>)
    requires ch in "-+" && !Starts(s, ':') && forall e :: e in args ==> Ordinary(c, ch, e)
    requires IsOption(elem) && RestOf(elem, rest) && Ordinary(c, ch, elem)
    ensures ElementAlike(c, ch, s, first, elem, rest, args)
    decreases |args|, |rest|
  {
    hide Decode, Alike, ScanAlike, RestOf, Ordinary, Starts;
    RestIsThere(elem, rest);
    OrdinaryIsAlike(c, ch, s, elem, rest, args);
    var d := Decode(c, s, elem, rest, args);
    if d.rest == "" {
      OrdinaryScan(c, ch, s, false, d.args);
    } else {
      RestGoesOn(elem, rest);
      OrdinaryElement(c, ch, s, false, elem, d.rest, d.args);
    }
  }

  /** Command lines of ordinary elements are scanned as if the prefix were lost for good, unless a
  colon follows it. */
  lemma OrdinaryUnaffected(c: Config, ch: char, s: string, args: seq<string>)
    requires Prefixed(c, ch, s) && !Starts(s, ':') && forall e :: e in args ==> Ordinary(c, ch, e)
    ensures Parse(c, Stripped(c.optstring), args) == Steady(c, s, args)
  {
    hide Parse, Steady, ScanAlike, Ordinary;
    assert Stripped(c.optstring) == s;
    OrdinaryScan(c, ch, s, true, args);
    ScanAlikeIff(c, ch, s, true, args);
  }

  // ----- requests on the first call

  lemma ElementsBehindHelp(c: Config, ch: char, s: string, elem: string, args: seq<string>)
    requires ch in "-+" && IsOption(elem) && elem != "--" && args != []
    requires (c.longs.Table? && elem[1] == '-') || elem[1] != ch
    ensures RestOf(elem, Body(c, elem)) && Alike(c, ch, s, elem, Body(c, elem), args)
  {
    hide Lookup, Name, Value, Role, LeadArity;
    BodyIsRest(c, elem);
    TriesLongMore(c, ch, s, elem);
  }

  lemma SameFirstCall(c: Config, ch: char, s: string, args: seq<string>)
    requires Prefixed(c, ch, s) && |args| > 1 && IsOption(args[0]) && args[0] != "--"
    requires (c.longs.Table? && args[0][1] == '-') || args[0][1] != ch
    ensures Parse(c, s, args) == Parse(c, c.optstring, args)
  {
    hide Decode, Alike, Body, RestOf;
    var elem, rest := args[0], Body(c, args[0]);
    ElementsBehindHelp(c, ch, s, elem, args[1..]);
    AlikeIff(c, ch, s, elem, rest, args[1..]);
    RestIsThere(elem, rest);
  }

  lemma FirstElement(c: Config, r: Request, more: seq<string>)
    requires Suits(c, r)
    ensures var all := Written(c, r) + more;
      && |all| > 0 && IsOption(all[0]) && all[0] != "--" && |all| > |more|
      && (if r.Shorts? then Starts(Letters(r.flags, r.last), all[0][1]) else c.longs.Table? && all[0][1] == '-')
  {
    hide ArityOf, LettersSuit, NoLongNames, DistinctNames;
    var elem := (Written(c, r) + more)[0];
    if r.Shorts? {
      assert elem == "-" + Letters(r.flags, r.last) && elem[1] != '-';
    } else {
      assert |elem| >= 2 + |c.longs.options[r.k].name| > 2;
    }
  }

  /** Options written out are parsed back by a scan that starts with such an option string, too,
  unless the first of them is the letter of the prefix. */
  lemma WrittenParsesBack(c: Config, ch: char, s: string, rs: seq<Request>, operands: seq<string>)
    requires Prefixed(c, ch, s)
    requires forall i :: 0 <= i < |rs| ==> Suits(c, rs[i])
    requires |rs| > 0 && rs[0].Shorts? ==> !Starts(Letters(rs[0].flags, rs[0].last), ch)
    ensures Parse(c, Stripped(c.optstring), WrittenAll(c, rs) + ["--"] + operands) == Outcome(MeantAll(c, rs), operands)
  {
    hide Suits, Written, MeantAll, ParseElement, Letters, IsOption;
    var all := WrittenAll(c, rs) + ["--"] + operands;
    assert Stripped(c.optstring) == s;
    ParsesWrittenAll(c, rs, operands);
    if |rs| == 0 {
      assert all == ["--"] + operands && all[0] == "--" && all[1..] == operands;
    } else {
      var more := WrittenAll(c, rs[1..]) + ["--"] + operands;
      assert all == Written(c, rs[0]) + more;
      FirstElement(c, rs[0], more);
      SameFirstCall(c, ch, s, all);
    }
  }

  // ----- inputs that do

  /** Without a table an option element is a run of letters. */
  lemma LettersOnly(c: Config, opts: string, e: string, args: seq<string>)
    requires c.longs.NoTable? && IsOption(e) && e != "--"
    ensures Parse(c, opts, [e] + args) == ParseElement(c, opts, e, e[1..], args)
  {
    assert ([e] + args)[1..] == args;
  }

  lemma NextLetter(c: Config, opts: string, e: string, rest: string, args: seq<string>)
    requires c.longs.NoTable? && IsOption(e) && rest != ""
    ensures var d := DecodeShort(opts, rest, args);
      ParseElement(c, opts, e, rest, args)
        == Before(d.event, if d.rest == "" then Parse(c, c.optstring, d.args) else ParseElement(c, c.optstring, e, d.rest, d.args))
  {
    hide DecodeShort;
  }

  /** With the option string "+:a:" the same missing argument is reported with a colon by the first
  call and with a question mark by a later one. */
  lemma MissingIsReportedTwoWays()
    ensures var c := Config("+:a:", NoTable, false);
      && Stripped(c.optstring) == ":a:"
      && Parse(c, ":a:", ["-a"]).events == [Complaint(':', 'a' as int)]
      && Parse(c, ":a:", ["-x", "-a"]).events == [Complaint('?', 'x' as int), Complaint('?', 'a' as int)]
  {
    hide Parse, ParseElement, DecodeShort;
    var c := Config("+:a:", NoTable, false);
    ColonLetters();
    Nothing(c);
    assert ["-a"] == ["-a"] + [] && ["-x", "-a"] == ["-x"] + ["-a"];
    LettersOnly(c, ":a:", "-a", []);
    NextLetter(c, ":a:", "-a", "a", []);
    LettersOnly(c, ":a:", "-x", ["-a"]);
    NextLetter(c, ":a:", "-x", "x", ["-a"]);
    LettersOnly(c, "+:a:", "-a", []);
    NextLetter(c, "+:a:", "-a", "a", []);
  }

  lemma Nothing(c: Config)
    ensures Parse(c, c.optstring, []) == Outcome([], [])
  {
  }

  lemma ColonLetters()
    ensures DecodeShort(":a:", "a", []) == Decoded(Complaint(':', 'a' as int), "", [])
    ensures DecodeShort("+:a:", "a", []) == Decoded(Complaint('?', 'a' as int), "", [])
    ensures DecodeShort(":a:", "x", ["-a"]) == Decoded(Complaint('?', 'x' as int), "", ["-a"])
  {
    assert forall j :: 0 <= j < 3 && ":a:"[j] == 'a' ==> j == 1;
    assert forall j :: 0 <= j < 4 && "+:a:"[j] == 'a' ==> j == 2;
  }

  /** With the option string of the first scan of the main program a dash behind a dash is no option
  for the first call and one for a later call. */
  lemma DashBecomesAnOption()
    ensures var c := Config("-p:vD:d:hf:L:S:T:V", NoTable, false);
      && Stripped(c.optstring) == "p:vD:d:hf:L:S:T:V"
      && Parse(c, "p:vD:d:hf:L:S:T:V", ["--x"]).events == [Complaint('?', '-' as int), Complaint('?', 'x' as int)]
      && Parse(c, "p:vD:d:hf:L:S:T:V", ["-v", "--x"]).events
         == [Plain('v' as int, None), Plain('-' as int, None), Complaint('?', 'x' as int)]
  {
    hide Parse, ParseElement, DecodeShort;
    var c := Config("-p:vD:d:hf:L:S:T:V", NoTable, false);
    var s := "p:vD:d:hf:L:S:T:V";
    DashLetters();
    Nothing(c);
    assert ["--x"] == ["--x"] + [] && ["-v", "--x"] == ["-v"] + ["--x"];
    LettersOnly(c, s, "--x", []);
    NextLetter(c, s, "--x", "-x", []);
    NextLetter(c, c.optstring, "--x", "x", []);
    LettersOnly(c, s, "-v", ["--x"]);
    NextLetter(c, s, "-v", "v", ["--x"]);
    LettersOnly(c, c.optstring, "--x", []);
    NextLetter(c, c.optstring, "--x", "-x", []);
  }

  lemma DashLetters()
    ensures DecodeShort("p:vD:d:hf:L:S:T:V", "-x", []) == Decoded(Complaint('?', '-' as int), "x", [])
    ensures DecodeShort("p:vD:d:hf:L:S:T:V", "v", ["--x"]) == Decoded(Plain('v' as int, None), "", ["--x"])
    ensures DecodeShort("-p:vD:d:hf:L:S:T:V", "-x", []) == Decoded(Plain('-' as int, None), "x", [])
    ensures DecodeShort("-p:vD:d:hf:L:S:T:V", "x", []) == Decoded(Complaint('?', 'x' as int), "", [])
  {
    hide DecodeShort;
    StrangeLetter("p:vD:d:hf:L:S:T:V", "-x", []);
    FlagLetter("p:vD:d:hf:L:S:T:V", "v", ["--x"], 2);
    FlagLetter("-p:vD:d:hf:L:S:T:V", "-x", [], 0);
    StrangeLetter("-p:vD:d:hf:L:S:T:V", "x", []);
  }

  lemma StrangeLetter(opts: string, rest: string, args: seq<string>)
    requires rest != "" && rest[0] !in opts
    ensures DecodeShort(opts, rest, args) == Decoded(Complaint('?', rest[0] as int), rest[1..], args)
  {
  }

  lemma FlagLetter(opts: string, rest: string, args: seq<string>, k: nat)
    requires k < |opts| && rest != "" && opts[k] == rest[0] != ':' && rest[0] !in opts[..k] && !CharIs(opts, k + 1, ':')
    ensures DecodeShort(opts, rest, args) == Decoded(Plain(rest[0] as int, None), rest[1..], args)
  {
    var i := Index(opts, rest[0]);
    assert forall j :: 0 <= j < k ==> opts[..k][j] == opts[j];
    assert forall j :: 0 <= j < i ==> opts[..i][j] == opts[j];
  }
}
