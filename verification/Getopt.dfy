/** The re-entrant option scanner of the tools: a run of calls equals one recursive parse. */
module Getopt {
  import opened Common
  import opened Seqs

  /** What a call reports: EOF, or an option letter ('?' for a rejected one). */
  datatype Ret = EOF | Opt(letter: char)

  /** An option letter together with optarg as the caller finds it afterwards. */
  datatype Event = Event(letter: char, optarg: Option<string>)

  /** A C string's i-th character: past the end comes the terminator. */
  function CharAt(s: string, i: nat): char {
    if i < |s| then s[i] else '\0'
  }

  predicate CString(s: string) {
    '\0' !in s
  }

  /** strchr: the first position of c, the terminator included. */
  function StrChr(s: string, c: char): (r: Option<nat>)
    ensures r.Some? ==> r.value <= |s| && CharAt(s, r.value) == c && c !in s[..r.value]
    ensures r.None? ==> c !in s && c != '\0'
  {
    if s == "" then (if c == '\0' then Some(0) else None)
    else if s[0] == c then Some(0)
    else
      var r := StrChr(s[1..], c);
      if r.None? then None
      else
        assert s[..r.value + 1] == [s[0]] + s[1..][..r.value];
        Some(r.value + 1)
  }

  // ----- The reference parser

  predicate Known(opts: string, c: char) {
    c != ':' && c in opts
  }

  /** The option's letter is followed by a colon in the option string. */
  predicate TakesArgument(opts: string, c: char) {
    exists i :: 0 <= i && i + 1 < |opts| && opts[i] == c && c !in opts[..i] && opts[i + 1] == ':'
  }

  /** Scanning stops at the first word that is not an option, or at "--". */
  predicate Stops(words: seq<string>) {
    words == [] || |words[0]| < 2 || words[0][0] != '-' || words[0] == "--"
  }

  /** Parse the rest of a cluster of letters, then the words that follow. The result is the list of
      events and the words that are left. `optarg` is what the previous event left behind. */
  function Parse(opts: string, cluster: string, words: seq<string>, optarg: Option<string>)
    : (r: (seq<Event>, seq<string>))
    decreases |words|, |cluster|
  {
    if cluster == "" then
      if Stops(words) then ([], words) else Parse(opts, words[0][1..], words[1..], optarg)
    else
      var c := cluster[0];
      if !Known(opts, c) then
        Before(Event('?', optarg), Parse(opts, cluster[1..], words, optarg))
      else if !TakesArgument(opts, c) then
        Before(Event(c, None), Parse(opts, cluster[1..], words, None))
      else if |cluster| > 1 then
        Before(Event(c, Some(cluster[1..])), Parse(opts, "", words, Some(cluster[1..])))
      else if words == [] then
        Before(Event('?', None), ([], []))
      else
        Before(Event(c, Some(words[0])), Parse(opts, "", words[1..], Some(words[0])))
  }

  function Before(e: Event, r: (seq<Event>, seq<string>)): (seq<Event>, seq<string>) {
    Prefix([e], r)
  }

  function Prefix(es: seq<Event>, r: (seq<Event>, seq<string>)): (seq<Event>, seq<string>) {
    (es + r.0, r.1)
  }

  lemma PrefixTwice(a: seq<Event>, b: seq<Event>, r: (seq<Event>, seq<string>))
    ensures Prefix(a, Prefix(b, r)) == Prefix(a + b, r) && Prefix([], r) == r
  {
    assert a + b + r.0 == a + (b + r.0) && [] + r.0 == r.0;
  }

  /** strchr finds the letter that the parser looks up. */
  lemma LookUp(opts: string, c: char)
    requires c != '\0' && CString(opts)
    ensures StrChr(opts, c).None? <==> c !in opts
    ensures StrChr(opts, c).Some? ==> (TakesArgument(opts, c) <==> CharAt(opts, StrChr(opts, c).value + 1) == ':')
  {
    var r := StrChr(opts, c);
    if r.Some? {
      var k := r.value;
      assert opts[k] == c && c !in opts[..k];
      if CharAt(opts, k + 1) == ':' {
        assert opts[k + 1] == ':';
      }
      forall i | 0 <= i && i + 1 < |opts| && opts[i] == c && c !in opts[..i]
        ensures i == k
      {
        FirstIsUnique(opts, c, i, k);
      }
    }
  }

  lemma FirstIsUnique(s: string, c: char, i: nat, k: nat)
    requires i < |s| && k < |s| && s[i] == c && s[k] == c && c !in s[..i] && c !in s[..k]
    ensures i == k
  {
    assert forall m :: 0 <= m < k ==> s[m] == s[..k][m];
    assert forall m :: 0 <= m < i ==> s[m] == s[..i][m];
  }

  // ----- What lies ahead of a scanning position

  /** Between calls the position is at the start of a word, which may be missing, or at a letter inside
      one. */
  ghost predicate Between(argv: seq<string>, i: nat, position: nat) {
    && 1 <= position && (i <= |argv| || i == 1)
    && (position > 1 ==> i < |argv| && position < |argv[i]|)
  }

  function WordsFrom(argv: seq<string>, i: nat): seq<string> {
    if i <= |argv| then argv[i..] else []
  }

  /** What the reference parser makes of the rest of the input. */
  ghost function Rest(argv: seq<string>, opts: string, i: nat, position: nat, optarg: Option<string>)
    : (seq<Event>, seq<string>)
    requires Between(argv, i, position)
  {
    if position == 1 then Parse(opts, "", WordsFrom(argv, i), optarg)
    else Parse(opts, argv[i][position..], argv[i + 1..], optarg)
  }

  /** The position is at a letter of an option word. */
  ghost predicate AtLetter(argv: seq<string>, i: nat, position: nat) {
    i < |argv| && 1 <= position < |argv[i]| && (position == 1 ==> !Stops(argv[i..]))
  }

  /** The tests at the start of a word decide whether scanning stops there. */
  lemma StartOfWord(argv: seq<string>, opts: string, i: nat, optarg: Option<string>)
    requires Between(argv, i, 1) && forall k :: 0 <= k < |argv| ==> CString(argv[k])
    ensures var stop := i >= |argv| || CharAt(argv[i], 0) != '-' || CharAt(argv[i], 1) == '\0' || argv[i] == "--";
      && (stop ==> Rest(argv, opts, i, 1, optarg) == ([], WordsFrom(argv, i)))
      && (!stop ==> AtLetter(argv, i, 1))
  {
    if i < |argv| {
      assert argv[i..][0] == argv[i];
      if |argv[i]| >= 2 {
        assert argv[i][1] in argv[i];
      }
    }
  }

  /** The terminator marks the end of a word, and no letter is one. */
  lemma EndOfWord(word: string, k: nat)
    requires CString(word) && k <= |word|
    ensures CharAt(word, k) == '\0' <==> k == |word|
    ensures k < |word| ==> CharAt(word, k) == word[k]
  {
    if k < |word| {
      assert word[k] in word;
    }
  }

  /** At a letter the parser goes on with that letter, whether it is the first of the word or not. */
  lemma Letters(argv: seq<string>, opts: string, i: nat, position: nat, optarg: Option<string>)
    requires AtLetter(argv, i, position)
    ensures Rest(argv, opts, i, position, optarg) == Parse(opts, argv[i][position..], argv[i + 1..], optarg)
    ensures argv[i][position..] != "" && argv[i][position..][0] == argv[i][position]
    ensures argv[i][position..][1..] == argv[i][position + 1..]
  {
    if position == 1 {
      assert argv[i..][0] == argv[i] && argv[i..][1..] == argv[i + 1..];
    }
  }

  /** What lies ahead after one letter of a cluster. */
  lemma Onward(argv: seq<string>, opts: string, i: nat, position: nat, optarg: Option<string>)
    requires AtLetter(argv, i, position)
    ensures position + 1 == |argv[i]| ==>
      Between(argv, i + 1, 1) &&
      Rest(argv, opts, i + 1, 1, optarg) == Parse(opts, argv[i][position + 1..], argv[i + 1..], optarg)
    ensures position + 1 < |argv[i]| ==>
      Between(argv, i, position + 1) &&
      Rest(argv, opts, i, position + 1, optarg) == Parse(opts, argv[i][position + 1..], argv[i + 1..], optarg)
  {
  }

  lemma Rejected(argv: seq<string>, opts: string, i: nat, position: nat, optarg: Option<string>)
    requires AtLetter(argv, i, position) && !Known(opts, argv[i][position])
    ensures Rest(argv, opts, i, position, optarg) ==
            Before(Event('?', optarg), Parse(opts, argv[i][position + 1..], argv[i + 1..], optarg))
  {
    hide Rest;
    Letters(argv, opts, i, position, optarg);
  }

  lemma PlainFlag(argv: seq<string>, opts: string, i: nat, position: nat, optarg: Option<string>)
    requires AtLetter(argv, i, position)
    requires Known(opts, argv[i][position]) && !TakesArgument(opts, argv[i][position])
    ensures Rest(argv, opts, i, position, optarg) ==
            Before(Event(argv[i][position], None), Parse(opts, argv[i][position + 1..], argv[i + 1..], None))
  {
    hide Rest;
    Letters(argv, opts, i, position, optarg);
  }

  lemma WithArgument(argv: seq<string>, opts: string, i: nat, position: nat, optarg: Option<string>)
    requires AtLetter(argv, i, position)
    requires Known(opts, argv[i][position]) && TakesArgument(opts, argv[i][position])
    ensures Between(argv, i + 1, 1) && (i + 1 < |argv| ==> Between(argv, i + 2, 1))
    ensures var c, tail := argv[i][position], argv[i][position + 1..];
      Rest(argv, opts, i, position, optarg) ==
        if position + 1 < |argv[i]| then Before(Event(c, Some(tail)), Rest(argv, opts, i + 1, 1, Some(tail)))
        else if i + 1 == |argv| then Before(Event('?', None), Rest(argv, opts, i + 1, 1, None))
        else Before(Event(c, Some(argv[i + 1])), Rest(argv, opts, i + 2, 1, Some(argv[i + 1])))
  {
    Letters(argv, opts, i, position, optarg);
    if i + 1 < |argv| {
      assert argv[i + 1..][0] == argv[i + 1] && argv[i + 1..][1..] == argv[i + 2..];
    }
  }

  // ----- The scanner

  /** The global optind and optarg, and the static position inside a clustered word. */
  class Scanner {
    var optind: nat
    var optarg: Option<string>
    var position: nat

    constructor ()
      ensures optind == 1 && optarg == None && position == 1
    {
      optind, optarg, position := 1, None, 1;
    }

    ghost predicate Valid(argv: seq<string>)
      reads this
    {
      Between(argv, optind, position)
    }

    ghost function Ahead(argv: seq<string>, opts: string): (seq<Event>, seq<string>)
      requires Valid(argv)
      reads this
    {
      Rest(argv, opts, optind, position, optarg)
    }

    /** Move to the next offset (getopt.c:38-42, 69-73). */
    method NextOffset(argv: seq<string>, ghost opts: string)
      requires AtLetter(argv, optind, position) && CString(argv[optind])
      modifies this`optind, this`position
      ensures Valid(argv)
      ensures Ahead(argv, opts) ==
              Parse(opts, argv[old(optind)][old(position) + 1..], argv[old(optind) + 1..], optarg)
      ensures optind > old(optind) || (optind == old(optind) && position > old(position))
    {
      Onward(argv, opts, optind, position, optarg);
      EndOfWord(argv[optind], position + 1);
      hide Rest, Parse, Stops, CharAt, AtLetter, CString, Between;
      position := position + 1;
      if CharAt(argv[optind], position) == '\0' {
        optind := optind + 1;
        position := 1;
      }
    }

    /** An option that takes an argument (getopt.c:49-67). */
    method TakeArgument(argv: seq<string>, opts: string) returns (r: Ret)
      requires AtLetter(argv, optind, position) && CString(argv[optind])
      requires Known(opts, argv[optind][position]) && TakesArgument(opts, argv[optind][position])
      modifies this
      ensures Valid(argv) && r.Opt? && optind > old(optind)
      ensures Rest(argv, opts, old(optind), old(position), old(optarg)) ==
              Before(Event(r.letter, optarg), Ahead(argv, opts))
    {
      var word, c := argv[optind], argv[optind][position];
      WithArgument(argv, opts, optind, position, optarg);
      EndOfWord(word, position + 1);
      hide *;
      r := Opt(c);
      if CharAt(word, position + 1) != '\0' {
        optarg := Some(word[position + 1..]);
        optind := optind + 1;
      } else {
        optind := optind + 1;
        if optind >= |argv| {
          optarg := None;
          r := Opt('?');
        } else {
          optarg := Some(argv[optind]);
          optind := optind + 1;
        }
      }
      position := 1;
      AheadHere(argv, opts);
    }

    /** The fields are the place from which the parser goes on. */
    lemma AheadHere(argv: seq<string>, opts: string)
      requires Between(argv, optind, position)
      ensures Valid(argv) && Ahead(argv, opts) == Rest(argv, opts, optind, position, optarg)
    {
    }

    /** getopt (getopt.c:8-76). */
    method GetOpt(argv: seq<string>, opts: string) returns (r: Ret)
      requires Valid(argv) && CString(opts) && forall i :: 0 <= i < |argv| ==> CString(argv[i])
      modifies this
      ensures Valid(argv)
      ensures r.EOF? ==> old(Ahead(argv, opts)) == ([], WordsFrom(argv, optind))
      ensures r.EOF? ==> optind == old(optind) && optarg == old(optarg) && position == old(position) == 1
      ensures r.Opt? ==> old(Ahead(argv, opts)) == Before(Event(r.letter, optarg), Ahead(argv, opts))
      ensures r.Opt? ==> optind > old(optind) || (optind == old(optind) && position > old(position))
      ensures r.Opt? ==> old(optind) < |argv|
    {
      hide Rest, Parse, Stops, TakesArgument, StrChr;
      if position == 1 {
        StartOfWord(argv, opts, optind, optarg);
        if optind >= |argv| || CharAt(argv[optind], 0) != '-' || CharAt(argv[optind], 1) == '\0' {
          return EOF;
        }
        if argv[optind] == "--" {
          return EOF;
        }
      }
      EndOfWord(argv[optind], position);
      var c := CharAt(argv[optind], position);
      LookUp(opts, c);
      var cp := StrChr(opts, c);
      if c == ':' || cp.None? {
        Rejected(argv, opts, optind, position, optarg);
        NextOffset(argv, opts);
        return Opt('?');
      }
      if CharAt(opts, cp.value + 1) == ':' {
        r := TakeArgument(argv, opts);
      } else {
        PlainFlag(argv, opts, optind, position, optarg);
        optarg := None;
        NextOffset(argv, opts);
        return Opt(c);
      }
    }
  }

  /** What a call reports, and what is ahead after it. */
  ghost function Coming(r: Ret, optarg: Option<string>, ahead: (seq<Event>, seq<string>), words: seq<string>)
    : (seq<Event>, seq<string>)
  {
    if r.EOF? then ([], words) else Prefix([Event(r.letter, optarg)], ahead)
  }

  /** A whole run of calls: until EOF, keeping what each call reports. */
  method ScanAll(argv: seq<string>, opts: string) returns (events: seq<Event>, operands: seq<string>)
    requires CString(opts) && forall i :: 0 <= i < |argv| ==> CString(argv[i])
    ensures (events, operands) == Parse(opts, "", if argv == [] then [] else argv[1..], None)
  {
    var g := new Scanner();
    events := [];
    ghost var goal := Parse(opts, "", WordsFrom(argv, 1), None);
    assert g.Ahead(argv, opts) == goal;
    hide Rest, Parse, CharAt, Stops, Known, CString, WordsFrom;
    PrefixTwice([], [], goal);
    var r := g.GetOpt(argv, opts);
    while r.Opt?
      invariant fresh(g) && g.Valid(argv)
      invariant goal == Prefix(events, Coming(r, g.optarg, g.Ahead(argv, opts), WordsFrom(argv, g.optind)))
      decreases r.Opt?, |argv| - g.optind, if g.optind < |argv| then |argv[g.optind]| - g.position else 0
    {
      var e := Event(r.letter, g.optarg);
      PrefixTwice(events, [e], g.Ahead(argv, opts));
      events := events + [e];
      r := g.GetOpt(argv, opts);
    }
    operands := WordsFrom(argv, g.optind);
    assert events + [] == events;
  }

  // ----- What is reported

  /** Nothing is reported if and only if there is no word, or the first one is empty, does not start
      with a dash, or is a lone dash or "--"; all words are then operands. */
  lemma StopsExactly(opts: string, words: seq<string>, optarg: Option<string>)
    ensures var r := Parse(opts, "", words, optarg);
      && (r.0 == [] <==>
        words == [] || words[0] == "" || words[0][0] != '-' || words[0] == "-" || words[0] == "--")
      && (r.0 == [] ==> r.1 == words)
  {
    if !Stops(words) {
      assert Parse(opts, words[0][1..], words[1..], optarg).0 != [];
    }
  }

  ghost predicate Reported(opts: string, e: Event) {
    if e.letter == '?' then true
    else e.letter in opts && e.letter != ':' && (e.optarg.Some? <==> TakesArgument(opts, e.letter))
  }

  /** Every letter that is reported is '?' or one of the option string's, with an argument if and only if
      it takes one. What is left over is a tail of the words, at which scanning stops. */
  lemma {:induction false} ReportsOptions(opts: string, cluster: string, words: seq<string>, optarg: Option<string>)
    ensures var r := Parse(opts, cluster, words, optarg);
      && (forall i :: 0 <= i < |r.0| ==> Reported(opts, r.0[i]))
      && |r.1| <= |words| && r.1 == words[|words| - |r.1|..]
      && (r.1 == [] || r.1[0] == "" || r.1[0][0] != '-' || r.1[0] == "-" || r.1[0] == "--")
    decreases |words|, |cluster|
  {
    hide TakesArgument;
    if cluster == "" {
      if !Stops(words) {
        ReportsOptions(opts, words[0][1..], words[1..], optarg);
      }
    } else {
      var c := cluster[0];
      if !Known(opts, c) {
        ReportsOptions(opts, cluster[1..], words, optarg);
      } else if !TakesArgument(opts, c) {
        ReportsOptions(opts, cluster[1..], words, None);
      } else if |cluster| > 1 {
        ReportsOptions(opts, "", words, Some(cluster[1..]));
      } else if words != [] {
        ReportsOptions(opts, "", words[1..], Some(words[0]));
      }
    }
  }

  /** Colons and letters that the option string does not have are reported one by one as '?', and leave
      optarg alone. */
  lemma {:induction false} ParseRejected(opts: string, cs: string, tail: string, words: seq<string>,
                                         optarg: Option<string>)
    requires forall i :: 0 <= i < |cs| ==> cs[i] == ':' || cs[i] !in opts
    ensures Parse(opts, cs + tail, words, optarg) ==
            Prefix(seq(|cs|, _ => Event('?', optarg)), Parse(opts, tail, words, optarg))
  {
    if cs == "" {
      assert cs + tail == tail && seq(|cs|, _ => Event('?', optarg)) == [];
      PrefixTwice([], [], Parse(opts, tail, words, optarg));
    } else {
      var e, rest := Event('?', optarg), seq(|cs| - 1, _ => Event('?', optarg));
      assert (cs + tail)[1..] == cs[1..] + tail;
      ParseRejected(opts, cs[1..], tail, words, optarg);
      PrefixTwice([e], rest, Parse(opts, tail, words, optarg));
      assert [e] + rest == seq(|cs|, _ => Event('?', optarg));
    }
  }

  /** An option at the very end that lacks its argument is reported as '?', without optarg. */
  lemma ParseMissing(opts: string, c: char, optarg: Option<string>)
    requires c in opts && c != ':' && TakesArgument(opts, c)
    ensures Parse(opts, [c], [], optarg) == ([Event('?', None)], [])
  {
    assert [Event('?', None)] + [] == [Event('?', None)];
  }

  // ----- The option string

  /** An option string lists the options, each followed by a colon if it takes an argument. */
  datatype Spec = Spec(letter: char, argument: bool)

  function OptString(specs: seq<Spec>): string {
    if specs == [] then "" else SpecString(specs[0]) + OptString(specs[1..])
  }

  function SpecString(o: Spec): string {
    if o.argument then [o.letter, ':'] else [o.letter]
  }

  ghost predicate Clear(specs: seq<Spec>) {
    && (forall i :: 0 <= i < |specs| ==> specs[i].letter != ':')
    && forall i, j :: 0 <= i < j < |specs| ==> specs[i].letter != specs[j].letter
  }

  ghost predicate Lists(specs: seq<Spec>, c: char) {
    exists i :: 0 <= i < |specs| && specs[i].letter == c
  }

  /** The scanner reads such a string as it is meant: these letters are options, and these of them take
      an argument. */
  lemma {:induction false} OptStringMeans(specs: seq<Spec>, c: char)
    requires Clear(specs) && c != ':'
    ensures c in OptString(specs) <==> Lists(specs, c)
    ensures TakesArgument(OptString(specs), c) <==> Spec(c, true) in specs
    ensures specs != [] ==> OptString(specs) != "" && OptString(specs)[0] == specs[0].letter
  {
    if specs != [] {
      var o, rest := specs[0], OptString(specs[1..]);
      OptStringMeans(specs[1..], c);
      assert rest != "" ==> rest[0] != ':';
      ListsFirst(specs, c);
      if c == o.letter {
        TakesFirst(o, rest);
        assert Spec(c, true) in specs <==> o.argument by {
          assert forall i :: 0 < i < |specs| ==> specs[i].letter != c;
        }
      } else {
        TakesLater(SpecString(o), rest, c);
        assert Spec(c, true) in specs <==> Spec(c, true) in specs[1..] by {
          assert specs == [o] + specs[1..];
        }
      }
    }
  }

  lemma ListsFirst(specs: seq<Spec>, c: char)
    requires specs != []
    ensures Lists(specs, c) <==> specs[0].letter == c || Lists(specs[1..], c)
  {
    if i :| 0 < i < |specs| && specs[i].letter == c {
      assert specs[1..][i - 1].letter == c;
    }
    if i :| 0 <= i < |specs[1..]| && specs[1..][i].letter == c {
      assert specs[i + 1].letter == c;
    }
  }

  lemma TakesFirst(o: Spec, rest: string)
    requires o.letter != ':' && (rest != "" ==> rest[0] != ':')
    ensures TakesArgument(SpecString(o) + rest, o.letter) <==> o.argument
  {
    var opts := SpecString(o) + rest;
    assert opts[0] == o.letter && opts[..0] == "";
    if o.argument {
      assert opts[1] == ':';
    }
  }

  /** Letters in front that are not c do not matter. */
  lemma TakesLater(front: string, rest: string, c: char)
    requires c !in front
    ensures TakesArgument(front + rest, c) <==> TakesArgument(rest, c)
  {
    var opts, n := front + rest, |front|;
    if i :| 0 <= i && i + 1 < |rest| && rest[i] == c && c !in rest[..i] && rest[i + 1] == ':' {
      assert opts[n + i] == c && opts[n + i + 1] == ':' && opts[..n + i] == front + rest[..i];
    }
    if i :| 0 <= i && i + 1 < |opts| && opts[i] == c && c !in opts[..i] && opts[i + 1] == ':' {
      assert forall k :: 0 <= k < n ==> opts[k] == front[k];
      assert rest[i - n] == c && rest[i - n + 1] == ':' && opts[..i] == front + rest[..i - n];
    }
  }

  // ----- Writing options down

  /** Ways to write options in a command line: a cluster of flags; such a cluster that ends in a
      letter with its argument attached; one that ends in a letter whose argument is the next word. */
  datatype Piece =
    | Flags(cs: string)
    | Attached(cs: string, c: char, arg: string)
    | Separate(cs: string, c: char, arg: string)

  predicate AllFlags(opts: string, cs: string) {
    forall i :: 0 <= i < |cs| ==> cs[i] in opts && cs[i] != ':' && !TakesArgument(opts, cs[i])
  }

  predicate Writable(opts: string, p: Piece) {
    && AllFlags(opts, p.cs) && Words(p)[0] != "--"
    && (if p.Flags? then p.cs != "" else p.c in opts && p.c != ':' && TakesArgument(opts, p.c))
    && (p.Attached? ==> p.arg != "")
  }

  function Words(p: Piece): (r: seq<string>)
    ensures |r| >= 1
  {
    match p
    case Flags(cs) => ["-" + cs]
    case Attached(cs, c, arg) => ["-" + cs + [c] + arg]
    case Separate(cs, c, arg) => ["-" + cs + [c], arg]
  }

  function FlagEvents(cs: string): seq<Event> {
    if cs == "" then [] else [Event(cs[0], None)] + FlagEvents(cs[1..])
  }

  function Meaning(p: Piece): seq<Event> {
    FlagEvents(p.cs) + if p.Flags? then [] else [Event(p.c, Some(p.arg))]
  }

  function AllWords(ps: seq<Piece>): seq<string> {
    if ps == [] then [] else Words(ps[0]) + AllWords(ps[1..])
  }

  function AllMeanings(ps: seq<Piece>): seq<Event> {
    if ps == [] then [] else Meaning(ps[0]) + AllMeanings(ps[1..])
  }

  /** Known flags at the front of a cluster are reported one by one. */
  lemma {:induction false} ParseFlags(opts: string, cs: string, tail: string, words: seq<string>,
                                      optarg: Option<string>)
    requires AllFlags(opts, cs)
    ensures Parse(opts, cs + tail, words, optarg) ==
            Prefix(FlagEvents(cs), Parse(opts, tail, words, if cs == "" then optarg else None))
  {
    if cs == "" {
      assert cs + tail == tail;
      PrefixTwice([], [], Parse(opts, tail, words, optarg));
    } else {
      assert (cs + tail)[1..] == cs[1..] + tail;
      ParseFlags(opts, cs[1..], tail, words, None);
      PrefixTwice([Event(cs[0], None)], FlagEvents(cs[1..]), Parse(opts, tail, words, None));
    }
  }

  /** Whatever mixture of clustered, attached and separate forms is used to write options down, the
      scanner reads the same options back and stops at the operands. */
  lemma {:induction false} ParseReadsBack(opts: string, ps: seq<Piece>, operands: seq<string>, optarg: Option<string>)
    requires forall i :: 0 <= i < |ps| ==> Writable(opts, ps[i])
    requires Stops(operands)
    ensures Parse(opts, "", AllWords(ps) + operands, optarg) == (AllMeanings(ps), operands)
  {
    hide *;
    if ps == [] {
      NoPieces(opts, operands, optarg);
    } else {
      var p := ps[0];
      FirstPiece(ps, operands);
      ParsePiece(opts, p, AllWords(ps[1..]) + operands, optarg);
      ParseReadsBack(opts, ps[1..], operands, if p.Flags? then None else Some(p.arg));
    }
  }

  lemma NoPieces(opts: string, operands: seq<string>, optarg: Option<string>)
    requires Stops(operands)
    ensures Parse(opts, "", AllWords([]) + operands, optarg) == (AllMeanings([]), operands)
  {
    assert [] + operands == operands;
  }

  lemma FirstPiece(ps: seq<Piece>, operands: seq<string>)
    requires ps != []
    ensures AllWords(ps) + operands == Words(ps[0]) + (AllWords(ps[1..]) + operands)
    ensures Prefix(Meaning(ps[0]), (AllMeanings(ps[1..]), operands)) == (AllMeanings(ps), operands)
  {
    hide Words, Meaning;
    Associate(Words(ps[0]), AllWords(ps[1..]), operands);
  }

  /** What follows the flags in a piece's first word, and its second word, if it has one. */
  function Tail(p: Piece): string {
    if p.Flags? then "" else if p.Attached? then [p.c] + p.arg else [p.c]
  }

  function More(p: Piece): seq<string> {
    if p.Separate? then [p.arg] else []
  }

  lemma PieceWords(opts: string, p: Piece, rest: seq<string>)
    requires Writable(opts, p)
    ensures var word := Words(p)[0];
      && |word| >= 2 && word[0] == '-' && word != "--" && word[1..] == p.cs + Tail(p)
      && Words(p) + rest == [word] + (More(p) + rest)
  {
    hide Known, TakesArgument, AllFlags;
    var word := "-" + (p.cs + Tail(p));
    assert word[1..] == p.cs + Tail(p);
    assert Words(p) == [word] + More(p) by {
      match p {
        case Flags(cs) => assert cs + "" == cs;
        case Attached(cs, c, arg) => Reassociate(cs, [c], arg);
        case Separate(cs, c, _) => Reassociate(cs, [c], "");
      }
    }
    FirstWord(word, More(p), rest);
  }

  lemma Reassociate(cs: string, c: string, arg: string)
    ensures "-" + cs + c + arg == "-" + (cs + (c + arg)) && "-" + cs + c == "-" + (cs + c)
  {
  }

  lemma FirstWord(word: string, more: seq<string>, rest: seq<string>)
    ensures [word] + more + rest == [word] + (more + rest)
  {
  }

  /** The part of a piece behind its flags. */
  lemma ParseTail(opts: string, p: Piece, rest: seq<string>, optarg: Option<string>)
    requires Writable(opts, p)
    ensures Parse(opts, Tail(p), More(p) + rest, optarg) ==
            if p.Flags? then Parse(opts, "", rest, optarg)
            else Prefix([Event(p.c, Some(p.arg))], Parse(opts, "", rest, Some(p.arg)))
  {
    match p {
      case Flags(_) => assert More(p) + rest == rest;
      case Attached(_, c, arg) =>
        assert More(p) + rest == rest;
        ParseAttached(opts, c, arg, rest, optarg);
      case Separate(_, c, arg) => ParseSeparate(opts, c, arg, rest, optarg);
    }
  }

  lemma FlagsFirst(opts: string, p: Piece)
    requires Writable(opts, p)
    ensures AllFlags(opts, p.cs) && (p.Flags? ==> p.cs != "")
    ensures Meaning(p) == FlagEvents(p.cs) + if p.Flags? then [] else [Event(p.c, Some(p.arg))]
    ensures p.Flags? ==> Meaning(p) == FlagEvents(p.cs)
  {
  }

  lemma ParsePiece(opts: string, p: Piece, rest: seq<string>, optarg: Option<string>)
    requires Writable(opts, p)
    ensures Parse(opts, "", Words(p) + rest, optarg) ==
            Prefix(Meaning(p), Parse(opts, "", rest, if p.Flags? then None else Some(p.arg)))
  {
    hide *;
    var before := if p.cs == "" then optarg else None;
    PieceWords(opts, p, rest);
    FlagsFirst(opts, p);
    ReadWord(opts, Words(p)[0], More(p) + rest, optarg);
    ParseFlags(opts, p.cs, Tail(p), More(p) + rest, optarg);
    ParseTail(opts, p, rest, before);
    if !p.Flags? {
      PrefixTwice(FlagEvents(p.cs), [Event(p.c, Some(p.arg))], Parse(opts, "", rest, Some(p.arg)));
    }
  }

  lemma ReadWord(opts: string, word: string, words: seq<string>, optarg: Option<string>)
    requires |word| >= 2 && word[0] == '-' && word != "--"
    ensures Parse(opts, "", [word] + words, optarg) == Parse(opts, word[1..], words, optarg)
  {
    assert ([word] + words)[1..] == words;
  }

  lemma ParseAttached(opts: string, c: char, arg: string, rest: seq<string>, optarg: Option<string>)
    requires Known(opts, c) && TakesArgument(opts, c) && arg != ""
    ensures Parse(opts, [c] + arg, rest, optarg) == Before(Event(c, Some(arg)), Parse(opts, "", rest, Some(arg)))
  {
    assert ([c] + arg)[1..] == arg;
  }

  lemma ParseSeparate(opts: string, c: char, arg: string, rest: seq<string>, optarg: Option<string>)
    requires Known(opts, c) && TakesArgument(opts, c)
    ensures Parse(opts, [c], [arg] + rest, optarg) == Before(Event(c, Some(arg)), Parse(opts, "", rest, Some(arg)))
  {
    assert ([arg] + rest)[1..] == rest;
  }
}
