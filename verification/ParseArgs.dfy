/** parseargs.c: splitting a string into arguments in place, and hexadecimal streams. */
module ParseArgs {
  import opened Bytes

  // ----- C strings in a buffer

  /** The string a char pointer denotes: everything up to the terminating NUL. */
  function CString(s: seq<char>, p: nat): string
    decreases |s| - p
  {
    if p >= |s| || s[p] == '\0' then "" else [s[p]] + CString(s, p + 1)
  }

  /** The text stands at p and is terminated. */
  predicate StandsAt(s: seq<char>, p: nat, text: string)
  {
    && p + |text| < |s| && s[p..p + |text|] == text && s[p + |text|] == '\0'
    && '\0' !in text
  }

  lemma {:induction false} StandsAsCString(s: seq<char>, p: nat, text: string)
    requires StandsAt(s, p, text)
    ensures CString(s, p) == text
    decreases |text|
  {
    assert forall k :: 0 <= k < |text| ==> s[p + k] == s[p..p + |text|][k] == text[k];
    if |text| > 0 {
      assert s[p + 1..p + 1 + |text[1..]|] == text[1..];
      StandsAsCString(s, p + 1, text[1..]);
    }
  }

  // ----- the arguments of a text

  /** The separators given, or white space if there are none. */
  datatype Separators = WhiteSpace | Among(chars: string)

  /** mstrchr */
  predicate IsSep(seps: Separators, c: char)
  {
    if seps.WhiteSpace? then c in " \t\n\r" || c == 11 as char || c == 12 as char else c in seps.chars
  }

  predicate AllSep(seps: Separators, t: string)
  {
    forall k :: 0 <= k < |t| ==> IsSep(seps, t[k])
  }

  predicate NoSep(seps: Separators, t: string)
  {
    forall k :: 0 <= k < |t| ==> !IsSep(seps, t[k])
  }

  /** How many separators come first. */
  function SepLength(seps: Separators, t: string): (n: nat)
    ensures n <= |t| && AllSep(seps, t[..n]) && (n < |t| ==> !IsSep(seps, t[n]))
  {
    if t == "" || !IsSep(seps, t[0]) then 0
    else
      var n := SepLength(seps, t[1..]);
      assert forall k :: 1 <= k <= n ==> t[k] == t[1..][..n][k - 1];
      n + 1
  }

  /** How many other characters come first. */
  function RunLength(seps: Separators, t: string): (n: nat)
    ensures n <= |t| && NoSep(seps, t[..n]) && (n < |t| ==> IsSep(seps, t[n]))
  {
    if t == "" || IsSep(seps, t[0]) then 0
    else
      var n := RunLength(seps, t[1..]);
      assert forall k :: 1 <= k <= n ==> t[k] == t[1..][..n][k - 1];
      n + 1
  }

  function Trimmed(seps: Separators, t: string): (r: string)
    ensures |r| <= |t| && (r != "" ==> !IsSep(seps, r[0]))
  {
    t[SepLength(seps, t)..]
  }

  /** All runs of the text. */
  function Runs(seps: Separators, t: string): seq<string>
    decreases |t|
  {
    var r := Trimmed(seps, t);
    if r == "" then []
    else [r[..RunLength(seps, r)]] + Runs(seps, r[RunLength(seps, r)..])
  }

  /** At most so many arguments, the rest of the text going into the last one. */
  function Arguments(seps: Separators, t: string, limit: nat): (a: seq<string>)
    ensures |a| <= limit
    decreases limit
  {
    var r := Trimmed(seps, t);
    if limit == 0 || r == "" then []
    else if limit == 1 then [r]
    else [r[..RunLength(seps, r)]] + Arguments(seps, r[RunLength(seps, r)..], limit - 1)
  }

  // ----- runs are the maximal stretches without separators

  /** gaps[0] words[0] gaps[1] words[1] ... gaps[n] */
  function Weave(gaps: seq<string>, words: seq<string>): string
    requires |gaps| == |words| + 1
    decreases |words|
  {
    if |words| == 0 then gaps[0] else gaps[0] + words[0] + Weave(gaps[1..], words[1..])
  }

  /** The gaps are separators, the words have none and are not empty, and between two words there
  is a gap: the words are the maximal stretches of the woven text without separators. */
  predicate Maximal(seps: Separators, gaps: seq<string>, words: seq<string>)
  {
    && |gaps| == |words| + 1
    && (forall k :: 0 <= k < |gaps| ==> AllSep(seps, gaps[k]))
    && (forall k :: 0 < k < |words| ==> gaps[k] != "")
    && (forall k :: 0 <= k < |words| ==> words[k] != "" && NoSep(seps, words[k]))
  }

  lemma TrimmedIs(seps: Separators, gap: string, rest: string)
    requires AllSep(seps, gap) && (rest != "" ==> !IsSep(seps, rest[0]))
    ensures Trimmed(seps, gap + rest) == rest
  {
    hide SepLength, IsSep;
    var t, n := gap + rest, SepLength(seps, gap + rest);
    assert forall k :: 0 <= k < n ==> t[..n][k] == t[k];
    assert forall k :: 0 <= k < |gap| ==> t[k] == gap[k];
    assert forall k :: |gap| <= k < |t| ==> t[k] == rest[k - |gap|];
    assert t[|gap|..] == rest;
  }

  lemma {:induction false} RunIs(seps: Separators, word: string, rest: string)
    requires NoSep(seps, word) && (rest != "" ==> IsSep(seps, rest[0]))
    ensures RunLength(seps, word + rest) == |word|
  {
    hide IsSep;
    if word == "" {
      assert word + rest == rest;
    } else {
      assert (word + rest)[1..] == word[1..] + rest;
      RunIs(seps, word[1..], rest);
    }
  }

  /** A woven text starts with a separator exactly when its first gap is not empty. */
  lemma WeaveStarts(seps: Separators, gaps: seq<string>, words: seq<string>)
    requires Maximal(seps, gaps, words)
    ensures var t := Weave(gaps, words);
      (|words| > 0 || gaps[0] != "" ==> t != "") && (t != "" ==> (IsSep(seps, t[0]) <==> gaps[0] != ""))
  {
    hide IsSep;
    var t := Weave(gaps, words);
    if gaps[0] != "" {
      assert t[0] == gaps[0][0];
    } else if |words| > 0 {
      assert t[0] == words[0][0];
    }
  }

  lemma MaximalTail(seps: Separators, gaps: seq<string>, words: seq<string>)
    requires Maximal(seps, gaps, words) && |words| > 0
    ensures Maximal(seps, gaps[1..], words[1..]) && (|words| > 1 ==> gaps[1..][0] != "")
    ensures AllSep(seps, gaps[0]) && NoSep(seps, words[0]) && words[0] != ""
  {
    hide AllSep, NoSep;
  }

  lemma MaximalExtends(seps: Separators, gap: string, word: string, gaps: seq<string>, words: seq<string>)
    requires Maximal(seps, gaps, words) && (|words| > 0 ==> gaps[0] != "")
    requires AllSep(seps, gap) && NoSep(seps, word) && word != ""
    ensures Maximal(seps, [gap] + gaps, [word] + words)
    ensures Weave([gap] + gaps, [word] + words) == gap + word + Weave(gaps, words)
  {
    hide AllSep, NoSep;
    assert ([gap] + gaps)[1..] == gaps && ([word] + words)[1..] == words;
  }

  lemma RunsStep(seps: Separators, gap: string, word: string, rest: string)
    requires AllSep(seps, gap) && NoSep(seps, word) && word != "" && (rest != "" ==> IsSep(seps, rest[0]))
    ensures Runs(seps, gap + (word + rest)) == [word] + Runs(seps, rest)
  {
    hide AllSep, Trimmed, RunLength;
    TrimmedIs(seps, gap, word + rest);
    RunIs(seps, word, rest);
    assert (word + rest)[..|word|] == word && (word + rest)[|word|..] == rest;
  }

  /** However a text is made of words and gaps, its runs are the words. */
  lemma {:induction false} RunsOfWeave(seps: Separators, gaps: seq<string>, words: seq<string>)
    requires Maximal(seps, gaps, words)
    ensures Runs(seps, Weave(gaps, words)) == words
    decreases |words|
  {
    hide IsSep, AllSep, NoSep, Trimmed, RunLength;
    if |words| == 0 {
      TrimmedIs(seps, gaps[0], "");
      assert gaps[0] + "" == gaps[0];
    } else {
      hide Maximal, Runs;
      var rest := Weave(gaps[1..], words[1..]);
      MaximalTail(seps, gaps, words);
      WeaveStarts(seps, gaps[1..], words[1..]);
      RunsOfWeave(seps, gaps[1..], words[1..]);
      assert |gaps| == |words| + 1 by { MaximalSizes(seps, gaps, words); }
      assert Weave(gaps, words) == gaps[0] + (words[0] + rest);
      EndsOrStartsWithGap(seps, gaps[1..], words[1..]);
      RunsStep(seps, gaps[0], words[0], rest);
    }
  }

  lemma MaximalSizes(seps: Separators, gaps: seq<string>, words: seq<string>)
    requires Maximal(seps, gaps, words)
    ensures |gaps| == |words| + 1
  {
  }

  lemma EndsOrStartsWithGap(seps: Separators, gaps: seq<string>, words: seq<string>)
    requires Maximal(seps, gaps, words) && (|words| > 0 ==> gaps[0] != "")
    ensures Weave(gaps, words) != "" ==> IsSep(seps, Weave(gaps, words)[0])
  {
    hide IsSep, AllSep, NoSep;
    WeaveStarts(seps, gaps, words);
  }

  lemma OnlyGap(seps: Separators, gap: string)
    requires AllSep(seps, gap)
    ensures Maximal(seps, [gap], []) && Weave([gap], []) == gap
  {
  }

  lemma RunsUnfold(seps: Separators, t: string)
    ensures var r := Trimmed(seps, t);
      var k := RunLength(seps, r);
      && (r == "" ==> Runs(seps, t) == [])
      && (r != "" ==> k > 0 && Runs(seps, t) == [r[..k]] + Runs(seps, r[k..]))
      && t[..SepLength(seps, t)] + r == t
  {
    hide SepLength, RunLength, IsSep, AllSep, NoSep;
  }

  /** Every text is made of its runs and gaps. */
  lemma {:induction false} RunsAreMaximal(seps: Separators, t: string) returns (gaps: seq<string>)
    ensures Maximal(seps, gaps, Runs(seps, t)) && Weave(gaps, Runs(seps, t)) == t
    decreases |t|
  {
    hide IsSep, AllSep, NoSep, Trimmed, SepLength, RunLength, Runs, Maximal, Weave;
    var gap, r := t[..SepLength(seps, t)], Trimmed(seps, t);
    RunsUnfold(seps, t);
    if r == "" {
      gaps := [gap];
      OnlyGap(seps, gap);
      assert gap + r == gap;
    } else {
      var k := RunLength(seps, r);
      var word, rest := r[..k], r[k..];
      var more := RunsAreMaximal(seps, rest);
      var words := Runs(seps, rest);
      WeaveStarts(seps, more, words);
      MaximalExtends(seps, gap, word, more, words);
      assert gap + word + rest == gap + r;
      gaps := [gap] + more;
    }
  }

  lemma TrimmedAgain(seps: Separators, t: string)
    ensures Trimmed(seps, Trimmed(seps, t)) == Trimmed(seps, t)
  {
    TrimmedIs(seps, "", Trimmed(seps, t));
    assert "" + Trimmed(seps, t) == Trimmed(seps, t);
  }

  lemma SuffixOfSuffix(t: string, n: nat, x: string)
    requires n <= |t| && |x| <= |t[n..]| && x == t[n..][|t[n..]| - |x|..]
    ensures x == t[|t| - |x|..]
  {
  }

  /** Below the limit the arguments are the runs; at the limit all but the last are, and the last
  is everything in the text from the next run on. */
  lemma {:induction false} ArgumentsAreRuns(seps: Separators, t: string, limit: nat)
    ensures var runs, args := Runs(seps, t), Arguments(seps, t, limit);
      if |runs| < limit then args == runs
      else
        |args| == limit
        && (limit > 0 ==>
            args[..limit - 1] == runs[..limit - 1] && Runs(seps, args[limit - 1]) == runs[limit - 1..]
            && |args[limit - 1]| <= |t| && args[limit - 1] == t[|t| - |args[limit - 1]|..])
    decreases limit
  {
    hide IsSep, AllSep, NoSep, SepLength, RunLength, Runs, Trimmed;
    var r, n := Trimmed(seps, t), SepLength(seps, t);
    RunsUnfold(seps, t);
    if limit > 0 && r != "" {
      assert r == t[n..] && n == |t| - |r| by {
        assert t == t[..n] + r;
      }
      var k := RunLength(seps, r);
      if limit == 1 {
        TrimmedAgain(seps, t);
        RunsUnfold(seps, r);
        assert Runs(seps, t)[0..] == Runs(seps, t);
      } else {
        var rest := r[k..];
        assert rest == t[n + k..];
        ArgumentsAreRuns(seps, rest, limit - 1);
        ArgumentsExtend(seps, r[..k], rest, limit - 1);
        if |Runs(seps, rest)| >= limit - 1 {
          SuffixOfSuffix(t, n + k, Arguments(seps, rest, limit - 1)[limit - 2]);
        }
      }
    }
  }

  lemma ArgumentsExtend(seps: Separators, word: string, rest: string, limit: nat)
    requires limit > 0
    ensures var runs, args := Runs(seps, rest), Arguments(seps, rest, limit);
      |args| == limit && |runs| >= limit ==>
        ([word] + args)[..limit] == [word] + args[..limit - 1] && ([word] + args)[limit] == args[limit - 1]
        && ([word] + runs)[..limit] == [word] + runs[..limit - 1] && ([word] + runs)[limit..] == runs[limit - 1..]
  {
    hide Runs, Arguments;
  }

  lemma {:induction false} FewRuns(seps: Separators, t: string)
    ensures |Runs(seps, t)| <= |t|
    decreases |t|
  {
    var r := Trimmed(seps, t);
    if r != "" {
      FewRuns(seps, r[RunLength(seps, r)..]);
    }
  }

  // ----- in place

  /** The buffer from p on still holds the rest of the text. */
  predicate Intact(s: seq<char>, text: string, p: nat)
  {
    && p <= |text| < |s| && s[|text|] == '\0'
    && forall k :: p <= k < |text| ==> s[k] == text[k]
  }

  lemma SepLengthStep(seps: Separators, text: string, p: nat)
    requires p <= |text|
    ensures SepLength(seps, text[p..]) ==
      if p < |text| && IsSep(seps, text[p]) then 1 + SepLength(seps, text[p + 1..]) else 0
    ensures RunLength(seps, text[p..]) ==
      if p < |text| && !IsSep(seps, text[p]) then 1 + RunLength(seps, text[p + 1..]) else 0
  {
    if p < |text| {
      assert text[p..][1..] == text[p + 1..];
    }
  }

  /** The loop that overwrites separators. */
  method SkipSeparators(s: array<char>, p0: nat, seps: Separators, ghost text: string) returns (p: nat)
    requires Intact(s[..], text, p0) && '\0' !in text
    modifies s
    ensures p == p0 + SepLength(seps, text[p0..]) && Intact(s[..], text, p)
    ensures forall k :: 0 <= k < s.Length ==> s[k] == if p0 <= k < p then '\0' else old(s[k])
  {
    hide IsSep, SepLength, RunLength;
    p := p0;
    SepLengthStep(seps, text, p);
    while s[p] != '\0' && IsSep(seps, s[p])
      invariant p0 <= p <= |text|
      invariant p0 + SepLength(seps, text[p0..]) == p + SepLength(seps, text[p..])
      invariant forall k :: 0 <= k < s.Length ==> s[k] == if p0 <= k < p then '\0' else old(s[k])
      decreases |text| - p
    {
      SepLengthStep(seps, text, p);
      s[p] := '\0';
      p := p + 1;
    }
    SepLengthStep(seps, text, p);
  }

  /** The loop that passes over an argument. */
  method SkipArgument(s: array<char>, p0: nat, seps: Separators, ghost text: string) returns (p: nat)
    requires Intact(s[..], text, p0) && '\0' !in text
    ensures p == p0 + RunLength(seps, text[p0..]) && Intact(s[..], text, p)
  {
    hide IsSep, SepLength, RunLength;
    p := p0;
    while s[p] != '\0' && !IsSep(seps, s[p])
      invariant p0 <= p <= |text|
      invariant p0 + RunLength(seps, text[p0..]) == p + RunLength(seps, text[p..])
      decreases |text| - p
    {
      SepLengthStep(seps, text, p);
      p := p + 1;
    }
    SepLengthStep(seps, text, p);
  }

  /** The arguments found and closed so far, all before p. */
  predicate Closed(s: seq<char>, args: seq<nat>, done: seq<string>, p: nat)
  {
    && |done| <= |args|
    && forall j :: 0 <= j < |done| ==> StandsAt(s, args[j], done[j]) && args[j] + |done[j]| < p
  }

  lemma ClosedKept(s: seq<char>, t: seq<char>, args: seq<nat>, argt: seq<nat>, done: seq<string>, p: nat)
    requires Closed(s, args, done, p) && p <= |s| == |t| && s[..p] == t[..p]
    requires |done| <= |argt| && forall j :: 0 <= j < |done| ==> argt[j] == args[j]
    ensures Closed(t, argt, done, p)
  {
    forall j | 0 <= j < |done| ensures StandsAt(t, argt[j], done[j]) {
      var a, b := args[j], args[j] + |done[j]|;
      assert forall k :: a <= k < b ==> s[k] == s[..p][k] == t[..p][k] == t[k];
      assert s[a..b] == t[a..b];
      assert s[b] == s[..p][b] == t[..p][b] == t[b];
    }
  }

  /** The argument found last, which is not closed yet: it starts at a, and ends at p unless it is
  the last one allowed. */
  predicate Pending(s: seq<char>, seps: Separators, text: string, a: nat, p: nat)
  {
    && a < p <= |text| && Intact(s, text, a)
    && (p < |text| ==> IsSep(seps, text[p]))
  }

  lemma PendingStands(s: seq<char>, seps: Separators, text: string, a: nat, p: nat)
    requires Pending(s, seps, text, a, p) && '\0' !in text
    ensures StandsAt(s, a, text[a..])
    ensures p == |text| ==> text[a..p] == text[a..]
  {
  }

  /** One round of the outer loop: skips separators, and if there is an argument notes where it
  starts and passes over it. */
  method NextArgument(s: array<char>, args: array<nat>, i: nat, p0: nat, seps: Separators, ghost text: string)
    returns (found: bool, p: nat)
    requires Intact(s[..], text, p0) && '\0' !in text
    requires Trimmed(seps, text[p0..]) != "" ==> i < args.Length
    modifies s, args
    ensures found == (Trimmed(seps, text[p0..]) != "")
    ensures var a := p0 + SepLength(seps, text[p0..]);
      && (forall k :: 0 <= k < s.Length ==> s[k] == if p0 <= k < a then '\0' else old(s[k]))
      && (if found then args[..] == old(args[..])[i := a] && p == a + RunLength(seps, text[a..]) && Pending(s[..], seps, text, a, p)
          else args[..] == old(args[..]))
  {
    hide IsSep, SepLength, RunLength;
    p := SkipSeparators(s, p0, seps, text);
    found := s[p] != '\0';
    assert text[p0..][p - p0..] == text[p..];
    if found {
      ghost var a := p;
      args[i] := p;
      p := SkipArgument(s, p, seps, text);
      assert text[a..][p - a..] == text[p..];
      RunAdvances(seps, text, a);
    }
  }

  lemma RunAdvances(seps: Separators, text: string, a: nat)
    requires a < |text| && !IsSep(seps, text[a])
    ensures var p := a + RunLength(seps, text[a..]);
      a < p <= |text| && (p < |text| ==> IsSep(seps, text[p]))
  {
    hide IsSep, RunLength;
  }

  /** Closing the pending argument: a separator behind it has been overwritten. */
  lemma Closes(s: seq<char>, t: seq<char>, seps: Separators, text: string, args: seq<nat>, argt: seq<nat>, done: seq<string>, p: nat, q: nat)
    requires '\0' !in text && |done| < |args| && Closed(s, args, done, args[|done|])
    requires Pending(s, seps, text, args[|done|], p) && p < q <= |text| && |s| == |t|
    requires forall k :: 0 <= k < |s| ==> t[k] == if p <= k < q then '\0' else s[k]
    requires |done| < |argt| && forall j :: 0 <= j <= |done| ==> argt[j] == args[j]
    ensures Closed(t, argt, done + [text[args[|done|]..p]], q)
  {
    var a := args[|done|];
    assert s[..a] == t[..a];
    ClosedKept(s, t, args, argt, done, a);
    assert StandsAt(t, a, text[a..p]);
  }

  /** What is still to come, the pending argument first, after i of at most `limit` arguments. */
  function ToCome(seps: Separators, text: string, a: nat, p: nat, i: nat, limit: nat): seq<string>
    requires i <= limit && a <= p <= |text|
  {
    if i == 0 then Arguments(seps, text[p..], limit)
    else if i == limit then [text[a..]]
    else [text[a..p]] + Arguments(seps, text[p..], limit - i)
  }

  lemma ToComeStep(seps: Separators, text: string, a: nat, p: nat, i: nat, limit: nat)
    requires i < limit && a <= p <= |text|
    ensures var b := p + SepLength(seps, text[p..]);
      var q := b + RunLength(seps, text[b..]);
      var pending := if i == 0 then [] else [text[a..p]];
      if Trimmed(seps, text[p..]) == "" then ToCome(seps, text, a, p, i, limit) == pending
      else ToCome(seps, text, a, p, i, limit) == pending + ToCome(seps, text, b, q, i + 1, limit)
  {
    hide SepLength, RunLength, IsSep, Trimmed, Arguments;
    var b := p + SepLength(seps, text[p..]);
    var q := b + RunLength(seps, text[b..]);
    ArgumentsUnfold(seps, text, p, limit - i);
  }

  lemma ArgumentsUnfold(seps: Separators, text: string, p: nat, limit: nat)
    requires p <= |text| && limit > 0
    ensures var b := p + SepLength(seps, text[p..]);
      var q := b + RunLength(seps, text[b..]);
      Arguments(seps, text[p..], limit) ==
        if Trimmed(seps, text[p..]) == "" then []
        else if limit == 1 then [text[b..]]
        else [text[b..q]] + Arguments(seps, text[q..], limit - 1)
  {
    hide SepLength, RunLength, IsSep, Trimmed;
    var b := p + SepLength(seps, text[p..]);
    var q := b + RunLength(seps, text[b..]);
    TrimmedAt(seps, text, p);
    SliceOfRest(text, b, q - b);
  }

  lemma TrimmedAt(seps: Separators, text: string, p: nat)
    requires p <= |text|
    ensures Trimmed(seps, text[p..]) == text[p + SepLength(seps, text[p..])..]
  {
    hide SepLength;
    var n := SepLength(seps, text[p..]);
    assert forall k :: 0 <= k < |text| - p - n ==> text[p..][n..][k] == text[p + n..][k];
  }

  lemma SliceOfRest(text: string, b: nat, n: nat)
    requires b + n <= |text|
    ensures text[b..][..n] == text[b..b + n] && text[b..][n..] == text[b + n..]
  {
    assert forall k :: 0 <= k < n ==> text[b..][..n][k] == text[b..b + n][k];
    assert forall k :: 0 <= k < |text| - b - n ==> text[b..][n..][k] == text[b + n..][k];
  }

  lemma ClosedReads(s: seq<char>, args: seq<nat>, done: seq<string>, p: nat)
    requires Closed(s, args, done, p)
    ensures forall j :: 0 <= j < |done| ==> CString(s, args[j]) == done[j]
  {
    forall j | 0 <= j < |done| ensures CString(s, args[j]) == done[j] {
      StandsAsCString(s, args[j], done[j]);
    }
  }

  /** Only separators of the text are overwritten. */
  predicate OnlySeparatorsLost(seps: Separators, text: string, before: seq<char>, after: seq<char>)
  {
    && |before| == |after|
    && forall k :: 0 <= k < |before| ==>
         after[k] == before[k] || (after[k] == '\0' && k < |text| && IsSep(seps, text[k]))
  }

  lemma SeparatorsLost(seps: Separators, text: string, p: nat, before: seq<char>, after: seq<char>)
    requires p <= |text| && |before| == |after|
    requires forall k :: 0 <= k < |before| ==>
      after[k] == if p <= k < p + SepLength(seps, text[p..]) then '\0' else before[k]
    ensures OnlySeparatorsLost(seps, text, before, after)
  {
    hide IsSep, SepLength;
    var n := SepLength(seps, text[p..]);
    forall k | p <= k < p + n ensures IsSep(seps, text[k]) {
      assert text[k] == text[p..][..n][k - p];
    }
  }

  lemma LostTwice(seps: Separators, text: string, a: seq<char>, b: seq<char>, c: seq<char>)
    requires OnlySeparatorsLost(seps, text, a, b) && OnlySeparatorsLost(seps, text, b, c)
    ensures OnlySeparatorsLost(seps, text, a, c)
  {
  }

  /** Where the pending argument starts. */
  function Last(args: seq<nat>, i: nat, p: nat): nat
  {
    if 0 < i <= |args| then args[i - 1] else p
  }

  /** Between two rounds: the earlier arguments are closed, the last of the i found is pending. */
  predicate Searching(s: seq<char>, args: seq<nat>, seps: Separators, text: string, i: nat, p: nat, done: seq<string>)
  {
    && Intact(s, text, p) && '\0' !in text
    && if i == 0 then done == []
       else i <= |args| && |done| == i - 1 && Pending(s, seps, text, args[i - 1], p) && Closed(s, args, done, args[i - 1])
  }

  lemma ClosesPending(s: seq<char>, t: seq<char>, seps: Separators, text: string, args: seq<nat>, argt: seq<nat>,
                      i: nat, p: nat, q: nat, done: seq<string>)
    requires Searching(s, args, seps, text, i, p, done) && i <= |argt| && (i > 0 ==> p < q) && q <= |text| && |s| == |t|
    requires forall k :: 0 <= k < |s| ==> t[k] == if p <= k < q then '\0' else s[k]
    requires forall j :: 0 <= j < i ==> argt[j] == args[j]
    ensures Closed(t, argt, if i == 0 then [] else done + [text[args[i - 1]..p]], q)
  {
    hide Closed, Pending, Intact;
    if i > 0 {
      Closes(s, t, seps, text, args, argt, done, p, q);
    } else {
      NothingClosed(t, argt, q);
    }
  }

  lemma NothingClosed(s: seq<char>, args: seq<nat>, p: nat)
    ensures Closed(s, args, [], p)
  {
  }

  /** One round and what it means: one more argument is pending, or all are closed. */
  method Round(s: array<char>, args: array<nat>, i: nat, p0: nat, seps: Separators,
               ghost text: string, ghost limit: nat, ghost done: seq<string>)
    returns (found: bool, p: nat, ghost closed: seq<string>)
    requires i < limit && Searching(s[..], args[..], seps, text, i, p0, done) && p0 < |text|
    requires Trimmed(seps, text[p0..]) != "" ==> i < args.Length
    modifies s, args
    ensures OnlySeparatorsLost(seps, text, old(s[..]), s[..])
    ensures var all := done + ToCome(seps, text, Last(old(args[..]), i, p0), p0, i, limit);
      if found then
        Searching(s[..], args[..], seps, text, i + 1, p, closed) && p > p0
        && all == closed + ToCome(seps, text, Last(args[..], i + 1, p), p, i + 1, limit)
      else closed == all && |closed| == i && Closed(s[..], args[..], closed, |text|)
  {
    hide IsSep, SepLength, RunLength, OnlySeparatorsLost, Closed, ToCome, Trimmed;
    ghost var was, argw, a := s[..], args[..], Last(args[..], i, p0);
    found, p := NextArgument(s, args, i, p0, seps, text);
    ghost var b := p0 + SepLength(seps, text[p0..]);
    SeparatorsLost(seps, text, p0, was, s[..]);
    closed := if i == 0 then [] else done + [text[a..p0]];
    SepLengthStep(seps, text, p0);
    ClosesPending(was, s[..], seps, text, argw, args[..], i, p0, b, done);
    ToComeStep(seps, text, a, p0, i, limit);
    if !found {
      TrimmedEmpty(seps, text, p0);
      assert done + (if i == 0 then [] else [text[a..p0]]) == closed;
    }
  }

  lemma TrimmedEmpty(seps: Separators, text: string, p: nat)
    requires p <= |text|
    ensures Trimmed(seps, text[p..]) == "" <==> p + SepLength(seps, text[p..]) == |text|
  {
    hide SepLength;
  }

  /** After the last round: the pending argument reaches the end of the text. */
  lemma Finishes(s: seq<char>, args: seq<nat>, seps: Separators, text: string, i: nat, p: nat, done: seq<string>, limit: nat)
    requires Searching(s, args, seps, text, i, p, done) && i <= limit && (p == |text| || i == limit)
    ensures var all := done + ToCome(seps, text, Last(args, i, p), p, i, limit);
      |all| == i && i <= |args| && forall j :: 0 <= j < i ==> CString(s, args[j]) == all[j]
  {
    hide IsSep, SepLength, RunLength, Closed, Intact;
    if i == 0 {
      assert p == |text| ==> text[p..] == "";
    } else {
      var a := args[i - 1];
      PendingStands(s, seps, text, a, p);
      StandsAsCString(s, a, text[a..]);
      ClosedReads(s, args, done, a);
      assert p == |text| ==> text[p..] == "";
    }
  }

  /** parsenargs: the arguments of the text, as the C strings the pointers denote afterwards. */
  method ParseNArgs(s: array<char>, args: array<nat>, limit: nat, seps: Separators, ghost text: string) returns (i: nat)
    requires Intact(s[..], text, 0) && '\0' !in text && args.Length >= limit
    modifies s, args
    ensures i == |Arguments(seps, text, limit)| <= args.Length
    ensures forall j :: 0 <= j < i ==> CString(s[..], args[j]) == Arguments(seps, text, limit)[j]
    ensures OnlySeparatorsLost(seps, text, old(s[..]), s[..])
  {
    hide IsSep, Arguments, ToCome, Trimmed, Closed, OnlySeparatorsLost;
    ghost var was, all, done := s[..], Arguments(seps, text, limit), [];
    var p: nat := 0;
    i := 0;
    StartsToCome(seps, text, limit);
    NothingLost(seps, text, was);
    while s[p] != '\0' && i < limit
      invariant i <= limit && Searching(s[..], args[..], seps, text, i, p, done)
      invariant all == done + ToCome(seps, text, Last(args[..], i, p), p, i, limit)
      invariant OnlySeparatorsLost(seps, text, was, s[..])
      decreases limit - i
    {
      ghost var before := s[..];
      var found;
      found, p, done := Round(s, args, i, p, seps, text, limit, done);
      LostTwice(seps, text, was, before, s[..]);
      if !found {
        ClosedReads(s[..], args[..], done, |text|);
        return;
      }
      i := i + 1;
    }
    Finishes(s[..], args[..], seps, text, i, p, done, limit);
  }

  lemma StartsToCome(seps: Separators, text: string, limit: nat)
    ensures ToCome(seps, text, 0, 0, 0, limit) == Arguments(seps, text, limit)
  {
    assert text[0..] == text;
  }

  lemma NothingLost(seps: Separators, text: string, s: seq<char>)
    ensures OnlySeparatorsLost(seps, text, s, s)
  {
  }

  /** parseargs, which has no limit: all runs of the text. */
  method ParseAllArgs(s: array<char>, args: array<nat>, seps: Separators, ghost text: string) returns (i: nat)
    requires Intact(s[..], text, 0) && '\0' !in text && args.Length >= |Runs(seps, text)|
    modifies s, args
    ensures i == |Runs(seps, text)|
    ensures forall j :: 0 <= j < i ==> CString(s[..], args[j]) == Runs(seps, text)[j]
    ensures OnlySeparatorsLost(seps, text, old(s[..]), s[..])
  {
    hide IsSep, Arguments, ToCome, Trimmed, Closed, OnlySeparatorsLost, Runs;
    ghost var limit := |text| + 1;
    FewRuns(seps, text);
    ArgumentsAreRuns(seps, text, limit);
    ghost var was, all, done := s[..], Runs(seps, text), [];
    var p: nat := 0;
    i := 0;
    StartsToCome(seps, text, limit);
    NothingLost(seps, text, was);
    while s[p] != '\0'
      invariant i <= p && Searching(s[..], args[..], seps, text, i, p, done)
      invariant i <= limit && all == done + ToCome(seps, text, Last(args[..], i, p), p, i, limit)
      invariant OnlySeparatorsLost(seps, text, was, s[..])
      decreases |text| - p
    {
      ghost var before, at := s[..], p;
      var found;
      MoreToCome(seps, text, Last(args[..], i, p), p, i, limit);
      found, p, done := Round(s, args, i, p, seps, text, limit, done);
      LostTwice(seps, text, was, before, s[..]);
      if !found {
        ClosedReads(s[..], args[..], done, |text|);
        return;
      }
      i := i + 1;
    }
    Finishes(s[..], args[..], seps, text, i, p, done, limit);
  }

  /** An argument still in the text is still to come. */
  lemma MoreToCome(seps: Separators, text: string, a: nat, p: nat, i: nat, limit: nat)
    requires i < limit && a <= p <= |text|
    ensures Trimmed(seps, text[p..]) != "" ==> |ToCome(seps, text, a, p, i, limit)| >= if i == 0 then 1 else 2
  {
    hide IsSep, RunLength;
  }
}
