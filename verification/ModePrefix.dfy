/**
  The '-' or '+' that selects an ordering is dropped from the option string in the
  first call only.  What the later calls, which keep it, read differently.
 */
module ModePrefix {
  import opened Options
  import opened CommandLine
  import opened CommandLineLaws

  function Prefixed(p: char, rest: OptString): (r: OptString)
    requires p == '-' || p == '+'
    ensures Stripped(r) == rest
  {
    [p] + rest
  }

  /** A ':' at the start of the list, which asks for ':' when an argument is missing,
      is no longer at the start. */
  predicate Hidden(s: Step, rest: string) {
    s.starved && CharAt(rest, 0, ':')
  }

  // ---------- one option ----------

  lemma PrefixedArity(p: char, rest: OptString, c: char)
    requires (p == '-' || p == '+') && c != p
    ensures ArityOf(Prefixed(p, rest), c) == ArityOf(rest, c)
    ensures c in Prefixed(p, rest) <==> c in rest
  {
    assert Prefixed(p, rest)[1..] == rest;
  }

  /** A letter other than the prefix is read differently exactly if it is starved and
      the ':' is hidden, and then only its answer differs. */
  lemma OtherLetter(p: char, rest: OptString, text: string, tail: seq<string>)
    requires (p == '-' || p == '+') && text != "" && text[0] != p
    ensures var s, s' := DecodeShort(rest, text, tail), DecodeShort(Prefixed(p, rest), text, tail);
            && s' == s.(event := s'.event)
            && (s'.event == s.event <==> !Hidden(s, rest))
  {
    PrefixedArity(p, rest, text[0]);
  }

  /** Two arities that do the same to a letter, given whether text is joined to it
      and whether an element follows. */
  predicate ActAlike(a: Arity, b: Arity, joined: bool, followed: bool) {
    if joined then a == b || (a in {Required, Optional} && b in {Required, Optional})
    else (a == b && (a == Required ==> followed)) || (a in {NoArgument, Optional} && b in {NoArgument, Optional})
  }

  /** The prefix letter is read alike exactly if what follows it at the start of the
      list gives it an arity that acts like the one it has in the stripped list.  The
      only two steps that are told apart by nothing but the `starved` mark are the
      complaint about an unlisted letter and that about its missing argument. */
  lemma PrefixLetter(p: char, rest: OptString, text: string, tail: seq<string>)
    requires (p == '-' || p == '+') && text != "" && text[0] == p
    ensures var s, s' := DecodeShort(rest, text, tail), DecodeShort(Prefixed(p, rest), text, tail);
            var a, b := ArityOf(rest, p), ArityOf(Prefixed(p, rest), p);
            && b == (if !CharAt(rest, 0, ':') then NoArgument else if CharAt(rest, 1, ':') then Optional else Required)
            && (s' == s <==> ActAlike(a, b, |text| > 1, tail != []))
            && (s'.event == s.event
                <==> ActAlike(a, b, |text| > 1, tail != [])
                     || (a == Unknown && b == Required && |text| == 1 && tail == []))
  {
  }

  lemma FoundOption(p: char, cfg: Config, o: LongOption, index: nat, text: string, tail: seq<string>)
    requires p == '-' || p == '+'
    ensures var s := DecodeFound(cfg, o, index, text, tail);
            var s' := DecodeFound(cfg.(optstring := Prefixed(p, cfg.optstring)), o, index, text, tail);
            && s' == s.(event := s'.event)
            && (s'.event == s.event <==> !Hidden(s, cfg.optstring))
  {
  }

  /** Whether the element is tried as a long option, and falls back to a short one,
      does not depend on the prefix. */
  lemma SamePath(p: char, cfg: Config, elem: string, text: string)
    requires (p == '-' || p == '+') && text != ""
    requires cfg.longOnly ==> CharAt(elem, 1, '-') || !CharAt(elem, 1, p)
    ensures var given := cfg.(optstring := Prefixed(p, cfg.optstring));
            && TriesLong(given, elem) == TriesLong(cfg, elem)
            && (text[0] != p || !cfg.longOnly ==> FallsBack(given, elem, text) == FallsBack(cfg, elem, text))
  {
    if text[0] != p {
      PrefixedArity(p, cfg.optstring, text[0]);
    }
    if 1 < |elem| && elem[1] != p {
      PrefixedArity(p, cfg.optstring, elem[1]);
    }
  }

  /** The same for any option of an element, long or short, also under long_only. */
  lemma OtherOption(p: char, cfg: Config, elem: string, text: string, tail: seq<string>)
    requires (p == '-' || p == '+') && text != ""
    requires text[0] != p || (TriesLong(cfg, elem) && !cfg.longOnly)
    requires cfg.longOnly ==> CharAt(elem, 1, '-') || !CharAt(elem, 1, p)
    ensures var s := Decode(cfg, elem, text, tail);
            var s' := Decode(cfg.(optstring := Prefixed(p, cfg.optstring)), elem, text, tail);
            && s' == s.(event := s'.event)
            && (s'.event == s.event <==> !Hidden(s, cfg.optstring))
  {
    hide DecodeShort, DecodeFound, LookupLong;
    SamePath(p, cfg, elem, text);
    if text[0] != p {
      OtherLetter(p, cfg.optstring, text, tail);
    }
    if TriesLong(cfg, elem) {
      match LookupLong(cfg.longopts.value, NameOf(text), cfg.longOnly)
      case Found(i) =>
        LookupLongMeaning(cfg.longopts.value, NameOf(text), cfg.longOnly);
        FoundOption(p, cfg, cfg.longopts.value[i], i, text, tail);
      case NotFound =>
      case Ambiguous =>
    }
  }

  /** What the calls after the first one are given. */
  function Given(p: char, cfg: Config): Config
    requires p == '-' || p == '+'
  {
    cfg.(optstring := Prefixed(p, cfg.optstring))
  }

  /** Whether an option is read alike with the prefix in place, told from the list. */
  predicate OptionAlike(p: char, cfg: Config, elem: string, text: string, tail: seq<string>)
    requires (p == '-' || p == '+') && text != ""
  {
    if text[0] != p || TriesLong(cfg, elem) then !Hidden(Decode(cfg, elem, text, tail), cfg.optstring)
    else
      var a, b := ArityOf(cfg.optstring, p), ArityOf(Prefixed(p, cfg.optstring), p);
      ActAlike(a, b, |text| > 1, tail != []) || (a == Unknown && b == Required && |text| == 1 && tail == [])
  }

  lemma AnyOption(p: char, cfg: Config, elem: string, text: string, tail: seq<string>)
    requires (p == '-' || p == '+') && text != "" && !cfg.longOnly
    ensures var s, s' := Decode(cfg, elem, text, tail), Decode(Given(p, cfg), elem, text, tail);
            && (s'.event == s.event <==> OptionAlike(p, cfg, elem, text, tail))
            && (s'.event == s.event ==> s'.rest == s.rest && s'.used == s.used)
  {
    if text[0] != p || TriesLong(cfg, elem) {
      OtherOption(p, cfg, elem, text, tail);
    } else {
      PrefixLetter(p, cfg.optstring, text, tail);
      PrefixLetterPasses(p, cfg.optstring, text, tail);
    }
  }

  lemma PrefixLetterPasses(p: char, rest: OptString, text: string, tail: seq<string>)
    requires (p == '-' || p == '+') && text != "" && text[0] == p
    ensures var s, s' := DecodeShort(rest, text, tail), DecodeShort(Prefixed(p, rest), text, tail);
            s'.event == s.event ==> s'.rest == s.rest && s'.used == s.used
  {
  }

  // ---------- whole scans ----------

  /** The scan that a caller gets: the first call (if this is it) is stripped, the
      later ones are not. */
  ghost function Actual(mode: Ordering, p: char, cfg: Config, first: bool, text: string, args: seq<string>): Parsed
    requires (p == '-' || p == '+') && (text != "" ==> args != [])
  {
    Parse(mode, if first then cfg else Given(p, cfg), Given(p, cfg), text, args)
  }

  /** Walking along the stripped scan, every option after the first call is one that
      the prefix leaves alike. */
  ghost predicate ScanAlike(mode: Ordering, p: char, cfg: Config, first: bool, text: string, args: seq<string>)
    requires (p == '-' || p == '+') && (text != "" ==> args != [])
    decreases |args|, if text == "" && args != [] then |args[0]| else |text|
  {
    if text == "" && (args == [] || args[0] == "--") then true
    else if text == "" && NonOption(args[0]) then
      mode == RequireOrder || ScanAlike(mode, p, cfg, first && mode == Permute, "", args[1..])
    else
      var t := if text != "" then text else OptionText(cfg, args[0]);
      var s := Decode(cfg, args[0], t, args[1..]);
      (first || OptionAlike(p, cfg, args[0], t, args[1..])) && ScanAlike(mode, p, cfg, false, s.rest, args[s.used..])
  }

  /** The exact condition, for every command line of getopt and getopt_long. */
  lemma {:induction false} ActualScan(mode: Ordering, p: char, cfg: Config, first: bool, text: string,
                                      args: seq<string>)
    requires (p == '-' || p == '+') && (text != "" ==> args != []) && !cfg.longOnly
    ensures var x, y := Parse(mode, cfg, cfg, text, args), Actual(mode, p, cfg, first, text, args);
            && (y.events == x.events <==> ScanAlike(mode, p, cfg, first, text, args))
            && (y.events == x.events ==> y.options == x.options && y.operands == x.operands)
    decreases |args|, if text == "" && args != [] then |args[0]| else |text|
  {
    if text == "" && (args == [] || args[0] == "--") {
    } else if text == "" && NonOption(args[0]) {
      if mode != RequireOrder {
        var first' := first && mode == Permute;
        ActualScan(mode, p, cfg, first', "", args[1..]);
        SameHead(Plain(1, Some(args[0])), Plain(1, Some(args[0])),
                 Parse(mode, cfg, cfg, "", args[1..]).events, Actual(mode, p, cfg, first', "", args[1..]).events);
      }
    } else {
      var t := if text != "" then text else OptionText(cfg, args[0]);
      ActualOption(mode, p, cfg, first, t, args);
    }
  }

  lemma {:induction false} ActualOption(mode: Ordering, p: char, cfg: Config, first: bool, text: string,
                                        args: seq<string>)
    requires (p == '-' || p == '+') && text != "" && args != [] && !cfg.longOnly
    ensures var now := if first then cfg else Given(p, cfg);
            var x, y := Continue(mode, cfg, cfg, text, args), Continue(mode, now, Given(p, cfg), text, args);
            && (y.events == x.events <==> ScanAlike(mode, p, cfg, first, text, args))
            && (y.events == x.events ==> y.options == x.options && y.operands == x.operands)
    decreases |args|, |text|, 0
  {
    hide Decode, OptionAlike, Parse;
    var now := if first then cfg else Given(p, cfg);
    var s, s' := Decode(cfg, args[0], text, args[1..]), Decode(now, args[0], text, args[1..]);
    AnyOption(p, cfg, args[0], text, args[1..]);
    ActualScan(mode, p, cfg, false, s.rest, args[s.used..]);
    SameHead(s.event, s'.event, Parse(mode, cfg, cfg, s.rest, args[s.used..]).events,
             Parse(mode, Given(p, cfg), Given(p, cfg), s'.rest, args[s'.used..]).events);
  }

  lemma SameHead(e: Event, e': Event, x: seq<Event>, y: seq<Event>)
    ensures [e] + x == [e'] + y <==> e == e' && x == y
  {
    assert ([e] + x)[0] == e && ([e] + x)[1..] == x && ([e'] + y)[0] == e' && ([e'] + y)[1..] == y;
  }

  // ---------- command lines without the prefix letter ----------

  /** The prefix letter is nowhere in the option text of `elem`. */
  predicate Free(p: char, cfg: Config, elem: string) {
    NonOption(elem) || elem == "--" || p !in OptionText(cfg, elem)
  }

  /** A half-read element of which the same is known. */
  predicate FreeText(p: char, text: string, args: seq<string>) {
    text != "" ==> args != [] && !NonOption(args[0]) && args[0] != "--" && p !in text
  }

  /** A command line on which the prefix letter is not used, also under long_only: the
      same options and operands, and the same events exactly unless the scan ends in a
      starved option that the hidden ':' was to report and that is not the first event. */
  lemma {:induction false} FreeScan(mode: Ordering, p: char, cfg: Config, first: bool, text: string, args: seq<string>)
    requires p == '-' || p == '+'
    requires (forall elem :: elem in args ==> Free(p, cfg, elem)) && FreeText(p, text, args)
    ensures var x, y := Parse(mode, cfg, cfg, text, args), Actual(mode, p, cfg, first, text, args);
            && y == x.(events := y.events)
            && (x.starved ==> x.events != [])
            && (y.events == x.events
                <==> !(x.starved && CharAt(cfg.optstring, 0, ':') && (first ==> |x.events| > 1)))
    decreases |args|, if text == "" && args != [] then |args[0]| else |text|
  {
    assert args != [] ==> Free(p, cfg, args[0]);
    if text == "" && (args == [] || args[0] == "--") {
    } else if text == "" && NonOption(args[0]) {
      FreeOperand(mode, p, cfg, first, args);
    } else {
      FreeOption(mode, p, cfg, first, if text != "" then text else OptionText(cfg, args[0]), args);
    }
  }

  lemma {:induction false} FreeOperand(mode: Ordering, p: char, cfg: Config, first: bool, args: seq<string>)
    requires p == '-' || p == '+'
    requires (forall elem :: elem in args ==> Free(p, cfg, elem))
    requires args != [] && NonOption(args[0]) && args[0] != "--"
    ensures var x, y := Parse(mode, cfg, cfg, "", args), Actual(mode, p, cfg, first, "", args);
            && y == x.(events := y.events)
            && (x.starved ==> x.events != [])
            && (y.events == x.events
                <==> !(x.starved && CharAt(cfg.optstring, 0, ':') && (first ==> |x.events| > 1)))
    decreases |args|, |args[0]|, 0
  {
    hide Free, Continue, OptionText;
    if mode != RequireOrder {
      var first' := first && mode == Permute;
      FreeScan(mode, p, cfg, first', "", args[1..]);
      var e := Plain(1, Some(args[0]));
      SameHead(e, e, Parse(mode, cfg, cfg, "", args[1..]).events, Actual(mode, p, cfg, first', "", args[1..]).events);
    }
  }

  lemma {:induction false} FreeOption(mode: Ordering, p: char, cfg: Config, first: bool, text: string,
                                      args: seq<string>)
    requires (p == '-' || p == '+') && text != ""
    requires (forall elem :: elem in args ==> Free(p, cfg, elem)) && FreeText(p, text, args)
    ensures var now := if first then cfg else Given(p, cfg);
            var x, y := Continue(mode, cfg, cfg, text, args), Continue(mode, now, Given(p, cfg), text, args);
            && y == x.(events := y.events)
            && x.events != []
            && (y.events == x.events
                <==> !(x.starved && CharAt(cfg.optstring, 0, ':') && (first ==> |x.events| > 1)))
    decreases |args|, |text|, 0
  {
    hide Decode;
    assert Free(p, cfg, args[0]);
    var now := if first then cfg else Given(p, cfg);
    var s, s' := Decode(cfg, args[0], text, args[1..]), Decode(now, args[0], text, args[1..]);
    OtherOption(p, cfg, args[0], text, args[1..]);
    StarvedLast(cfg, args[0], text, args[1..]);
    FreeScan(mode, p, cfg, false, s.rest, args[s.used..]);
    SameHead(s.event, s'.event, Parse(mode, cfg, cfg, s.rest, args[s.used..]).events,
             Actual(mode, p, cfg, false, s.rest, args[s.used..]).events);
  }

  /** `prog -a -+` with optstring "+a": the second call accepts "+". */
  lemma PrefixLeaks()
    ensures var stripped, given := Config("a", None, false), Config("+a", None, false);
            && Parse(RequireOrder, stripped, given, "", ["-a", "-+"]).events
              == [Plain('a' as int, None), Plain('+' as int, None)]
            && Parse(RequireOrder, stripped, stripped, "", ["-a", "-+"]).events
              == [Plain('a' as int, None), Bad('?' as int, '+' as int)]
  {
    var stripped, given := Config("a", None, false), Config("+a", None, false);
    var args := ["-a", "-+"];
    assert args[1..] == ["-+"] && ["-+"][1..] == [];
    assert OptionText(stripped, "-a") == "a" && OptionText(given, "-+") == "+" && OptionText(stripped, "-+") == "+";
    assert FirstIndex("a", 'a') == Some(0) && FirstIndex("+a", '+') == Some(0) && FirstIndex("a", '+') == None;
    assert Decode(stripped, "-a", "a", ["-+"]) == Step(Plain('a' as int, None), "", 1, false);
    assert Decode(given, "-+", "+", []) == Step(Plain('+' as int, None), "", 1, false);
    assert Decode(stripped, "-+", "+", []) == Step(Bad('?' as int, '+' as int), "", 1, false);
    assert Parse(RequireOrder, given, given, "", ["-+"]).events == [Plain('+' as int, None)];
    assert Parse(RequireOrder, stripped, stripped, "", ["-+"]).events == [Bad('?' as int, '+' as int)];
  }
}
