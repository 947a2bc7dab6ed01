/** gnugetopt.c: where a scan leaves the operands, and what it reports of an element that is wrong,
for the option strings the main program uses and for any other. */
module GetoptOrder {
  import opened Getopt
  import opened GetoptPrefix
  import opened Wrappers

  /** The option string asks for elements that are no options to be returned in order. */
  predicate InOrder(optstring: string)
  {
    |optstring| > 0 && optstring[0] == '-'
  }

  /** An element that is no option: empty, a single character, or without a dash in front. */
  predicate IsWord(e: string)
  {
    |e| < 2 || e[0] != '-'
  }

  // ----- the first call, which alone has lost the prefix

  lemma RequestIsAlike(c: Config, ch: char, s: string, r: Request, more: seq<string>)
    requires Prefixed(c, ch, s) && Suits(c, r) && (r.Shorts? ==> !Starts(Letters(r.flags, r.last), ch))
    ensures var all := Written(c, r) + more;
      && |all| > 0 && IsOption(all[0]) && all[0] != "--" && RestOf(all[0], Body(c, all[0]))
      && Alike(c, ch, s, all[0], Body(c, all[0]), all[1..])
  {
    hide ArityOf, LettersSuit, NoLongNames, DistinctNames, Alike, Body, RestOf, Suits, Written, IsOption;
    var all := Written(c, r) + more;
    FirstElement(c, r, more);
    DashFirst(all[0]);
    if all[1..] != [] {
      ElementsBehindHelp(c, ch, s, all[0], all[1..]);
    } else {
      BodyIsRest(c, all[0]);
      AloneIsAlike(c, ch, s, r, more);
    }
  }

  lemma DashFirst(e: string)
    requires IsOption(e)
    ensures |e| >= 2
  {
  }

  /** An element with nothing behind it takes no argument, or holds it. */
  lemma AloneIsAlike(c: Config, ch: char, s: string, r: Request, more: seq<string>)
    requires Prefixed(c, ch, s) && Suits(c, r) && (r.Shorts? ==> !Starts(Letters(r.flags, r.last), ch))
    requires var all := Written(c, r) + more; |all| == 1 && IsOption(all[0]) && all[0] != "--"
    ensures var all := Written(c, r) + more; Alike(c, ch, s, all[0], Body(c, all[0]), all[1..])
  {
    hide ArityOf, LettersSuit, NoLongNames, DistinctNames, Alike;
    var all := Written(c, r) + more;
    match r {
      case Shorts(flags, last) =>
        ShortsAloneAlike(c, ch, s, flags, last);
      case LongFlag(k) =>
        LongAloneAlike(c, ch, s, k, "");
        assert all[0] == "--" + c.longs.options[k].name + "";
      case LongValue(k, value, inElement) =>
        LongAloneAlike(c, ch, s, k, "=" + value);
        assert all[0] == "--" + c.longs.options[k].name + ("=" + value);
    }
    assert all[1..] == [];
  }

  lemma LongAloneAlike(c: Config, ch: char, s: string, k: nat, more: string)
    requires Prefixed(c, ch, s) && SuitsLong(c, k) && (more == "" || more[0] == '=')
    requires more == "" ==> c.longs.options[k].hasArg != 1
    ensures var e := "--" + c.longs.options[k].name + more; IsOption(e) && e != "--" && Alike(c, ch, s, e, Body(c, e), [])
  {
    hide Lookup, Name, Value, DistinctNames, ShortAlike;
    var name := c.longs.options[k].name;
    var e := "--" + name + more;
    NameOf(name, more);
    ExactBeatsAbbreviation(c.longs.options, name, c.longOnly, k);
    assert Body(c, e) == name + more;
  }

  lemma ShortsAloneAlike(c: Config, ch: char, s: string, flags: string, last: Last)
    requires Prefixed(c, ch, s) && Suits(c, Shorts(flags, last)) && !last.Separate?
    requires !Starts(Letters(flags, last), ch)
    ensures var e := "-" + Letters(flags, last); IsOption(e) && e != "--" && Alike(c, ch, s, e, Body(c, e), [])
  {
    hide ArityOf, Lookup, Name, Value, LettersSuit, DistinctNames, IsLetter, Role, LeadArity, NoLongNames;
    var letters := Letters(flags, last);
    var e := "-" + letters;
    assert e[1] == letters[0] && e[1..] == letters && Body(c, e) == letters;
    LetterIs(c, flags, last, 0);
    RolesWithPrefix(ch, s, letters[0]);
    LetterRole(c, flags, last);
    FirstUnknown(c, flags, last);
    RoleSome(s, letters[0]);
  }

  lemma RoleSome(opts: string, ch: char)
    ensures Role(opts, ch).Some? ==> ch in opts
  {
  }

  lemma FirstUnknown(c: Config, flags: string, last: Last)
    requires Suits(c, Shorts(flags, last))
    ensures MayBeLong(c, Letters(flags, last)) ==>
      Lookup(c.longs.options, Name(Letters(flags, last)), c.longOnly).Unknown?
  {
    hide ArityOf, Lookup, Name, LettersSuit;
    if MayBeLong(c, Letters(flags, last)) {
      assert Decodings(flags, last) > 0;
      assert Letters(flags, last)[0..] == Letters(flags, last);
    }
  }

  lemma LetterRole(c: Config, flags: string, last: Last)
    requires Suits(c, Shorts(flags, last)) && !last.Separate?
    ensures var letters := Letters(flags, last);
      && Role(c.optstring, letters[0]).Some?
      && (|letters| == 1 ==> Role(c.optstring, letters[0]) == Some(NoArgument))
  {
    hide ArityOf, NoLongNames, MayBeLong;
    LetterIs(c, flags, last, 0);
  }

  lemma SameFirstRequest(c: Config, ch: char, s: string, r: Request, more: seq<string>)
    requires Prefixed(c, ch, s) && Suits(c, r) && (r.Shorts? ==> !Starts(Letters(r.flags, r.last), ch))
    ensures Parse(c, s, Written(c, r) + more) == Parse(c, c.optstring, Written(c, r) + more)
  {
    hide Decode, Alike, Body, RestOf, Suits, Written, Letters;
    var all := Written(c, r) + more;
    RequestIsAlike(c, ch, s, r, more);
    AlikeIff(c, ch, s, all[0], Body(c, all[0]), all[1..]);
    RestIsThere(all[0], Body(c, all[0]));
  }

  // ----- operands behind the options

  lemma ParsesWord(c: Config, opts: string, args: seq<string>)
    requires |args| > 0 && IsWord(args[0])
    ensures Parse(c, opts, args) ==
      if InOrder(c.optstring) then Before(Event(1, Some(args[0]), None, None, None), Parse(c, c.optstring, args[1..]))
      else Outcome([], args)
  {
  }

  /** An element that is an option leaves an event or, if it is "--", is itself left out. */
  lemma OptionIsNoOperand(c: Config, operands: seq<string>)
    requires |operands| > 0 && !IsWord(operands[0])
    ensures Parse(c, c.optstring, operands) != Outcome([], operands)
  {
    hide Decode, Body;
    if operands[0] == "--" {
      assert |operands[1..]| < |operands|;
    }
  }

  lemma {:induction false} AllRequestsFirst(c: Config, rs: seq<Request>, operands: seq<string>)
    requires forall i :: 0 <= i < |rs| ==> Suits(c, rs[i])
    ensures Parse(c, c.optstring, WrittenAll(c, rs) + operands) == Behind(MeantAll(c, rs), Parse(c, c.optstring, operands))
  {
    hide Suits, Written, Meant, Parse;
    if |rs| == 0 {
      assert WrittenAll(c, rs) + operands == operands;
    } else {
      ParsesWritten(c, rs[0], WrittenAll(c, rs[1..]) + operands);
      AllRequestsFirst(c, rs[1..], operands);
      assert WrittenAll(c, rs) + operands == Written(c, rs[0]) + (WrittenAll(c, rs[1..]) + operands);
    }
  }

  lemma StopsAtOperand(c: Config, rs: seq<Request>, operands: seq<string>)
    requires !InOrder(c.optstring) && forall i :: 0 <= i < |rs| ==> Suits(c, rs[i])
    requires operands == [] || IsWord(operands[0])
    ensures Parse(c, c.optstring, WrittenAll(c, rs) + operands) == Outcome(MeantAll(c, rs), operands)
  {
    hide Suits, WrittenAll, MeantAll, InOrder, IsWord, Parse;
    AllRequestsFirst(c, rs, operands);
    if operands == [] { Nothing(c); } else { ParsesWord(c, c.optstring, operands); }
  }

  lemma BehindSame(es: seq<Event>, o: Outcome, operands: seq<string>)
    ensures Behind(es, o) == Outcome(es, operands) <==> o == Outcome([], operands)
  {
    if Behind(es, o) == Outcome(es, operands) {
      assert |es + o.events| == |es|;
    }
  }

  /** Without a dash in front of the option string, options written out and then operands are
  parsed to exactly those options, and exactly those operands are left, if and only if there are
  none or the first is no option; no "--" is needed. */
  lemma OperandsAreLeftIff(c: Config, rs: seq<Request>, operands: seq<string>)
    requires !InOrder(c.optstring) && forall i :: 0 <= i < |rs| ==> Suits(c, rs[i])
    ensures Parse(c, c.optstring, WrittenAll(c, rs) + operands) == Outcome(MeantAll(c, rs), operands)
      <==> operands == [] || IsWord(operands[0])
  {
    hide Suits, Written, Meant, InOrder, IsWord, Parse;
    if operands == [] || IsWord(operands[0]) {
      StopsAtOperand(c, rs, operands);
    } else {
      AllRequestsFirst(c, rs, operands);
      OptionIsNoOperand(c, operands);
      BehindSame(MeantAll(c, rs), Parse(c, c.optstring, operands), operands);
    }
  }

  /** The same of a scan from its first call, which has lost the prefix, if there is one. */
  lemma ScanLeavesOperands(c: Config, rs: seq<Request>, operands: seq<string>)
    requires !InOrder(c.optstring) && forall i :: 0 <= i < |rs| ==> Suits(c, rs[i])
    requires operands == [] || IsWord(operands[0])
    requires Starts(c.optstring, '+') && |rs| > 0 && rs[0].Shorts? ==> !Starts(Letters(rs[0].flags, rs[0].last), '+')
    ensures Parse(c, Stripped(c.optstring), WrittenAll(c, rs) + operands) == Outcome(MeantAll(c, rs), operands)
  {
    hide Suits, Written, Meant, Parse, Letters;
    StopsAtOperand(c, rs, operands);
    if Starts(c.optstring, '+') {
      var s := c.optstring[1..];
      assert c.optstring == ['+'] + s;
      if |rs| > 0 {
        var more := WrittenAll(c, rs[1..]) + operands;
        assert WrittenAll(c, rs) + operands == Written(c, rs[0]) + more;
        SameFirstRequest(c, '+', s, rs[0], more);
      } else {
        assert WrittenAll(c, rs) + operands == operands;
        SameWord(c, s, operands);
      }
    }
  }

  lemma SameWord(c: Config, s: string, args: seq<string>)
    requires args == [] || IsWord(args[0]) || args[0] == "--"
    ensures Parse(c, s, args) == Parse(c, c.optstring, args)
  {
  }

  // ----- words among the options

  /** A piece of a command line: an option that is asked for, or a word. */
  datatype Piece = Asked(r: Request) | Word(w: string)

  predicate Fits(c: Config, p: Piece)
  {
    match p
    case Asked(r) => Suits(c, r)
    case Word(w) => IsWord(w)
  }

  function ElementsOf(c: Config, p: Piece): seq<string>
    requires Fits(c, p)
  {
    match p
    case Asked(r) => Written(c, r)
    case Word(w) => [w]
  }

  function EventsOf(c: Config, p: Piece): seq<Event>
    requires Fits(c, p)
  {
    match p
    case Asked(r) => Meant(c, r)
    case Word(w) => [Event(1, Some(w), None, None, None)]
  }

  function Elements(c: Config, ps: seq<Piece>): seq<string>
    requires forall i :: 0 <= i < |ps| ==> Fits(c, ps[i])
  {
    if |ps| == 0 then [] else ElementsOf(c, ps[0]) + Elements(c, ps[1..])
  }

  function Reported(c: Config, ps: seq<Piece>): seq<Event>
    requires forall i :: 0 <= i < |ps| ==> Fits(c, ps[i])
  {
    if |ps| == 0 then [] else EventsOf(c, ps[0]) + Reported(c, ps[1..])
  }

  lemma ReportsPiece(c: Config, p: Piece, args: seq<string>)
    requires InOrder(c.optstring) && Fits(c, p)
    ensures Parse(c, c.optstring, ElementsOf(c, p) + args) == Behind(EventsOf(c, p), Parse(c, c.optstring, args))
  {
    hide Suits, Written, Meant, InOrder, IsWord, Parse;
    match p {
      case Asked(r) => ParsesWritten(c, r, args);
      case Word(w) =>
        assert ([w] + args)[1..] == args;
        ParsesWord(c, c.optstring, [w] + args);
    }
  }

  lemma {:induction false} ReportsPieces(c: Config, ps: seq<Piece>, more: seq<string>)
    requires InOrder(c.optstring) && forall i :: 0 <= i < |ps| ==> Fits(c, ps[i])
    ensures Parse(c, c.optstring, Elements(c, ps) + more) == Behind(Reported(c, ps), Parse(c, c.optstring, more))
  {
    hide Fits, ElementsOf, EventsOf, InOrder, Parse;
    if |ps| == 0 {
      assert Elements(c, ps) + more == more;
    } else {
      var args := Elements(c, ps[1..]) + more;
      ReportsPieces(c, ps[1..], more);
      ReportsPiece(c, ps[0], args);
      assert Elements(c, ps) + more == ElementsOf(c, ps[0]) + args;
    }
  }

  lemma EndsAtDashes(c: Config, opts: string, operands: seq<string>)
    ensures Parse(c, opts, ["--"] + operands) == Outcome([], operands)
    ensures Parse(c, opts, []) == Outcome([], [])
  {
    assert (["--"] + operands)[1..] == operands;
  }

  /** With a dash in front of the option string every run of options and words is reported piece by
  piece, a word as the argument of the event 1, and only what follows a "--" is left; from the first
  call on, whose option string has lost the dash. */
  lemma ReportsInOrder(c: Config, ps: seq<Piece>, operands: seq<string>)
    requires InOrder(c.optstring) && forall i :: 0 <= i < |ps| ==> Fits(c, ps[i])
    ensures Parse(c, Stripped(c.optstring), Elements(c, ps)) == Outcome(Reported(c, ps), [])
    ensures Parse(c, Stripped(c.optstring), Elements(c, ps) + ["--"] + operands) == Outcome(Reported(c, ps), operands)
  {
    hide Suits, Written, Meant, IsWord, Parse;
    var s := c.optstring[1..];
    assert c.optstring == ['-'] + s;
    ReportsPieces(c, ps, []);
    ReportsPieces(c, ps, ["--"] + operands);
    EndsAtDashes(c, c.optstring, operands);
    assert Elements(c, ps) + [] == Elements(c, ps);
    assert Elements(c, ps) + (["--"] + operands) == Elements(c, ps) + ["--"] + operands;
    SameFirstPiece(c, s, ps, []);
    SameFirstPiece(c, s, ps, ["--"] + operands);
  }

  lemma SameFirstOf(c: Config, s: string, p: Piece, args: seq<string>)
    requires c.optstring == ['-'] + s && Fits(c, p)
    ensures Parse(c, s, ElementsOf(c, p) + args) == Parse(c, c.optstring, ElementsOf(c, p) + args)
  {
    hide Suits, Written, IsWord, Parse, Letters;
    match p {
      case Asked(r) =>
        NoDashFirst(c, r);
        SameFirstRequest(c, '-', s, r, args);
      case Word(w) =>
        SameWord(c, s, [w] + args);
    }
  }

  lemma SameFirstPiece(c: Config, s: string, ps: seq<Piece>, more: seq<string>)
    requires c.optstring == ['-'] + s && forall i :: 0 <= i < |ps| ==> Fits(c, ps[i])
    requires more == [] || more[0] == "--"
    ensures Parse(c, s, Elements(c, ps) + more) == Parse(c, c.optstring, Elements(c, ps) + more)
  {
    hide Fits, ElementsOf, Parse, IsWord;
    if |ps| == 0 {
      assert Elements(c, ps) + more == more;
      SameWord(c, s, more);
    } else {
      var args := Elements(c, ps[1..]) + more;
      assert Elements(c, ps) + more == ElementsOf(c, ps[0]) + args;
      SameFirstOf(c, s, ps[0], args);
    }
  }

  lemma NoDashFirst(c: Config, r: Request)
    requires Suits(c, r)
    ensures r.Shorts? ==> !Starts(Letters(r.flags, r.last), '-')
  {
    hide LettersSuit, NoLongNames;
  }

  // ----- the scans of the main program

  /** The option string of the second scan; that of the first has a dash in front. */
  const LETTERS := "p:vD:d:hf:L:S:T:V"

  function FirstScan(): Config
  {
    Config("-" + LETTERS, NoTable, false)
  }

  function SecondScan(t: seq<LongOption>): Config
  {
    Config(LETTERS, Table(t), true)
  }

  lemma LeadOfSendip()
    ensures LeadArity(LETTERS) == NoArgument
  {
  }

  /** A letter is what the colons behind its first place say. */
  lemma RoleAt(opts: string, ch: char, k: nat)
    requires k < |opts| && opts[k] == ch != ':' && forall j :: 0 <= j < k ==> opts[j] != ch
    ensures Role(opts, ch) == Some(if !CharIs(opts, k + 1, ':') then NoArgument
                                   else if !CharIs(opts, k + 2, ':') then RequiredArgument else OptionalArgument)
  {
    var i := Index(opts, ch);
    assert forall j :: 0 <= j < i ==> opts[..i][j] == opts[j];
  }

  /** What the letters of the main program are: seven take an argument, three take none. */
  lemma LettersOfSendip(ch: char)
    ensures Role(LETTERS, ch) == if ch in "pDdfLST" then Some(RequiredArgument) else if ch in "vhV" then Some(NoArgument) else None
  {
    hide Role;
    match ch {
      case 'p' => RoleAt(LETTERS, ch, 0);
      case 'v' => RoleAt(LETTERS, ch, 2);
      case 'D' => RoleAt(LETTERS, ch, 3);
      case 'd' => RoleAt(LETTERS, ch, 5);
      case 'h' => RoleAt(LETTERS, ch, 7);
      case 'f' => RoleAt(LETTERS, ch, 8);
      case 'L' => RoleAt(LETTERS, ch, 10);
      case 'S' => RoleAt(LETTERS, ch, 12);
      case 'T' => RoleAt(LETTERS, ch, 14);
      case 'V' => RoleAt(LETTERS, ch, 16);
      case _ => NoLetter(ch);
    }
  }

  lemma LettersOfFirstScan(ch: char)
    ensures Role("-" + LETTERS, ch) == if ch == '-' then Some(NoArgument) else Role(LETTERS, ch)
  {
    hide Role, LeadArity;
    LeadOfSendip();
    RolesWithPrefix('-', LETTERS, ch);
    assert "-" + LETTERS == ['-'] + LETTERS;
  }

  lemma NoLetter(ch: char)
    requires ch !in "pvDdhfLSTV"
    ensures Role(LETTERS, ch) == None
  {
    assert forall k :: 0 <= k < 17 ==> LETTERS[k] in "pvDdhfLSTV:";
  }

  lemma {:induction false} PiecesAppend(c: Config, ps: seq<Piece>, p: Piece)
    requires Fits(c, p) && forall i :: 0 <= i < |ps| ==> Fits(c, ps[i])
    ensures Elements(c, ps + [p]) == Elements(c, ps) + ElementsOf(c, p)
    ensures Reported(c, ps + [p]) == Reported(c, ps) + EventsOf(c, p)
  {
    hide Fits, ElementsOf, EventsOf;
    if |ps| == 0 {
      assert ps + [p] == [p];
    } else {
      PiecesAppend(c, ps[1..], p);
      assert (ps + [p])[1..] == ps[1..] + [p];
    }
  }

  /** The first scan reports the host name like every other word and leaves nothing. */
  lemma FirstScanReportsHost(ps: seq<Piece>, host: string)
    requires IsWord(host) && forall i :: 0 <= i < |ps| ==> Fits(FirstScan(), ps[i])
    ensures Parse(FirstScan(), LETTERS, Elements(FirstScan(), ps) + [host])
      == Outcome(Reported(FirstScan(), ps) + [Event(1, Some(host), None, None, None)], [])
  {
    FirstScanIs();
    hide Parse, Elements, Reported, FirstScan, LETTERS;
    var c := FirstScan();
    assert Fits(c, Word(host));
    ReportsInOrder(c, ps + [Word(host)], []);
    PiecesAppend(c, ps, Word(host));
  }

  lemma FirstScanIs()
    ensures InOrder(FirstScan().optstring) && Stripped(FirstScan().optstring) == LETTERS
  {
  }

  /** The second scan stops at the host name, which is the operand left. */
  lemma SecondScanLeavesHost(t: seq<LongOption>, rs: seq<Request>, host: string)
    requires IsWord(host) && forall i :: 0 <= i < |rs| ==> Suits(SecondScan(t), rs[i])
    ensures Parse(SecondScan(t), LETTERS, WrittenAll(SecondScan(t), rs) + [host]) == Outcome(MeantAll(SecondScan(t), rs), [host])
  {
    SecondScanIs(t);
    hide Parse, WrittenAll, MeantAll, SecondScan, Suits, IsWord, InOrder;
    StopsAtOperand(SecondScan(t), rs, [host]);
  }

  lemma SecondScanIs(t: seq<LongOption>)
    ensures var s := SecondScan(t).optstring; !InOrder(s) && s == LETTERS
  {
  }

  lemma ModuleSuits(c: Config, name: string)
    requires c.optstring == LETTERS || c.optstring == "-" + LETTERS
    ensures var r := Shorts("", Separate('p', name));
      Suits(c, r) && Written(c, r) == ["-p", name] && Meant(c, r) == [Event('p' as int, Some(name), None, None, None)]
  {
    LettersOfSendip('p');
    LettersOfFirstScan('p');
    hide ArityOf, LETTERS;
    assert "-" + Letters("", Separate('p', name)) == "-p";
  }

  /** A module and a host name, in both scans. */
  lemma ModuleAndHost(t: seq<LongOption>, name: string, host: string)
    requires IsWord(host)
    ensures var e := Event('p' as int, Some(name), None, None, None);
      && Parse(FirstScan(), LETTERS, ["-p", name, host]) == Outcome([e, Event(1, Some(host), None, None, None)], [])
      && Parse(SecondScan(t), LETTERS, ["-p", name, host]) == Outcome([e], [host])
  {
    var r := Shorts("", Separate('p', name));
    ModuleSuits(FirstScan(), name);
    ModuleSuits(SecondScan(t), name);
    OnePiece(FirstScan(), r);
    hide Parse, Suits, Written, Meant, IsWord, FirstScan, SecondScan, LETTERS, Elements, Reported;
    FirstScanReportsHost([Asked(r)], host);
    SecondScanLeavesHost(t, [r], host);
    assert ["-p", name] + [host] == ["-p", name, host];
  }

  lemma OnePiece(c: Config, r: Request)
    requires Suits(c, r)
    ensures Fits(c, Asked(r))
    ensures Elements(c, [Asked(r)]) == Written(c, r) && Reported(c, [Asked(r)]) == Meant(c, r)
  {
    hide Suits, Written, Meant;
    assert Fits(c, Asked(r));
  }
}
