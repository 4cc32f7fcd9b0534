/**
  The permuting scanner of getopt.c: the globals are the fields, and argv is
  rearranged in place while it is read.  Every call is proved against the
  reading (CommandLine.Parse) of the argv that it found.
 */
module Getopt {
  import opened Options
  import opened CommandLine
  import opened CommandLineLaws
  import opened CommandLineRendering
  import opened ArgvBlocks
  import opened OptionTables

  /** The events a scan will still deliver and the argv it will leave: options, then operands. */
  datatype Outlook = Outlook(events: seq<Event>, options: seq<string>, operands: seq<string>)

  /**
    What a scan in the given state will still deliver, and how it will leave argv:
    `operands` are the non-options skipped so far, argv[first..last), and those
    still to come; `options` is everything else.
   */
  ghost function OutlookOf(mode: Ordering, now: Config, later: Config, text: string,
                           argv: seq<string>, first: int, last: int, ind: int): Outlook
    requires 0 <= first <= last <= ind <= |argv|
    requires text != "" ==> ind < |argv|
  {
    OutlookFrom(argv, first, last, ind, Parse(mode, now, later, text, argv[ind..]))
  }

  ghost function OutlookFrom(argv: seq<string>, first: int, last: int, ind: int, p: Parsed): Outlook
    requires 0 <= first <= last <= ind <= |argv|
  {
    Outlook(p.events, argv[..first] + argv[last..ind] + p.options, argv[first..last] + p.operands)
  }

  /** Moving the skipped non-options behind the options seen since changes nothing. */
  lemma OutlookRotated(mode: Ordering, now: Config, later: Config, argv: seq<string>, first: int, last: int, ind: int)
    requires 0 <= first <= last <= ind <= |argv|
    ensures OutlookOf(mode, now, later, "", Rotated(argv, first, last, ind), first + (ind - last), ind, ind)
         == OutlookOf(mode, now, later, "", argv, first, last, ind)
  {
  }

  /** With nothing skipped, the place where the skipped ones would be is immaterial. */
  lemma OutlookNoneSkipped(mode: Ordering, now: Config, later: Config, text: string, argv: seq<string>, first: int,
                           ind: int)
    requires 0 <= first <= ind <= |argv| && (text != "" ==> ind < |argv|)
    ensures OutlookOf(mode, now, later, text, argv, first, first, ind)
         == OutlookOf(mode, now, later, text, argv, ind, ind, ind)
  {
  }

  /** Skipping one more non-option. */
  lemma OutlookSkip(now: Config, later: Config, argv: seq<string>, first: int, ind: int)
    requires 0 <= first <= ind < |argv| && NonOption(argv[ind])
    ensures OutlookOf(Permute, now, later, "", argv, first, ind, ind)
         == OutlookOf(Permute, now, later, "", argv, first, ind + 1, ind + 1)
  {
  }

  lemma PassElements(argv: seq<string>, first: int, last: int, ind: int, used: nat, p: Parsed, q: Parsed)
    requires 0 <= first <= last <= ind <= ind + used <= |argv|
    requires p.options == argv[ind..][..used] + q.options && p.operands == q.operands
    ensures OutlookFrom(argv, first, last, ind + used, q) == OutlookFrom(argv, first, last, ind, p).(events := q.events)
  {
  }

  /** Passing the elements of one decoded option. */
  lemma OutlookStep(mode: Ordering, now: Config, later: Config, text: string, argv: seq<string>, first: int,
                    last: int, ind: int, s: Step)
    requires 0 <= first <= last <= ind < |argv| && text != ""
    requires s == Decode(now, argv[ind], text, argv[ind + 1..])
    ensures var o := OutlookOf(mode, now, later, text, argv, first, last, ind);
            && ind + s.used <= |argv|
            && o.events != [] && o.events[0] == s.event
            && OutlookOf(mode, later, later, s.rest, argv, first, last, ind + s.used)
               == o.(events := o.events[1..])
  {
    hide Parse, Decode;
    var args, tail := argv[ind..], argv[ind + s.used..];
    assert args[1..] == argv[ind + 1..] && args[s.used..] == tail;
    ParseContinues(mode, now, later, text, args);
    PassElements(argv, first, last, ind, s.used,
                 Parse(mode, now, later, text, args), Parse(mode, later, later, s.rest, tail));
  }

  // ---------- the ways a scan goes on at the start of an element ----------

  /** Nothing left, or "--", or (RequireOrder) a non-option: where argv is cut. */
  lemma OutlookAtEnd(mode: Ordering, now: Config, later: Config, argv: seq<string>, first: int, last: int, ind: int)
    requires 0 <= first <= last <= ind <= |argv|
    requires mode == Permute ==> last == ind
    requires mode != Permute ==> first == last
    requires ind == |argv| || (mode == RequireOrder && NonOption(argv[ind]) && argv[ind] != "--")
    ensures var o := OutlookOf(mode, now, later, "", argv, first, last, ind);
            && o.events == [] && o.options + o.operands == argv
            && |o.options| == first + (ind - last)
  {
  }

  lemma OutlookAtDashes(mode: Ordering, now: Config, later: Config, argv: seq<string>, first: int, last: int, ind: int)
    requires 0 <= first <= last <= ind < |argv| && argv[ind] == "--"
    ensures var o := OutlookOf(mode, now, later, "", argv, first, last, ind);
            && o.events == [] && |o.options| == first + (ind + 1 - last)
            && Rotated(argv, first, last, ind + 1) == o.options + o.operands
  {
  }

  /** ReturnInOrder hands a non-option out as the argument of option 1. */
  lemma OutlookAtOperand(now: Config, later: Config, argv: seq<string>, first: int, ind: int)
    requires 0 <= first <= ind < |argv| && NonOption(argv[ind]) && argv[ind] != "--"
    ensures var o := OutlookOf(ReturnInOrder, now, later, "", argv, first, first, ind);
            && o.events != [] && o.events[0] == Plain(1, Some(argv[ind]))
            && OutlookOf(ReturnInOrder, later, later, "", argv, first, first, ind + 1) == o.(events := o.events[1..])
  {
  }

  lemma OutlookAtElement(mode: Ordering, now: Config, later: Config, argv: seq<string>, first: int, last: int, ind: int)
    requires 0 <= first <= last <= ind < |argv| && !NonOption(argv[ind]) && argv[ind] != "--"
    ensures OutlookOf(mode, now, later, OptionText(now, argv[ind]), argv, first, last, ind)
         == OutlookOf(mode, now, later, "", argv, first, last, ind)
  {
  }

  // ---------- the scanner ----------

  datatype Advanced = Exhausted | InOrder(event: Event) | Element

  class Scanner {
    const argv: array<string>
    const posixlyCorrect: bool  // the environment variable is set
    var optind: int
    var initialized: bool
    var nextchar: string
    var firstNonopt: int
    var lastNonopt: int
    var ordering: Ordering
    var optarg: Option<string>
    var optopt: int

    /** The globals as the program starts. */
    constructor (argv: array<string>, posixlyCorrect: bool)
      ensures this.argv == argv && this.posixlyCorrect == posixlyCorrect
      ensures optind == 1 && !initialized && Fresh() && Valid()
    {
      this.argv, this.posixlyCorrect := argv, posixlyCorrect;
      optind, initialized, nextchar, firstNonopt, lastNonopt := 1, false, "", 0, 0;
      ordering, optarg, optopt := RequireOrder, None, '?' as int;
    }

    /** The next call starts a scan (again). */
    predicate Fresh()
      reads this
    {
      optind == 0 || !initialized
    }

    /** What a caller must keep: it may move optind back between elements. */
    ghost predicate Valid()
      reads this
    {
      argv.Length > 0 ==>
        && 0 <= optind <= argv.Length
        && (!Fresh() ==>
            && 1 <= firstNonopt <= lastNonopt
            && (nextchar != "" ==> lastNonopt <= optind < argv.Length)
            && (ordering != Permute ==> firstNonopt == lastNonopt))
    }

    /** What calls with `cfg` will still deliver, and how they will leave argv. */
    ghost function Outlook(cfg: Config): Outlook
      requires Valid() && argv.Length > 0
      reads this, argv
    {
      if Fresh() then
        var start := if optind == 0 then 1 else optind;
        OutlookOf(ModeOf(cfg.optstring, posixlyCorrect), cfg.(optstring := Stripped(cfg.optstring)), cfg, "",
                  argv[..], start, start, start)
      else if lastNonopt <= optind then Here(cfg, cfg)
      else OutlookOf(ordering, cfg, cfg, nextchar, argv[..], Min(firstNonopt, optind), optind, optind)
    }

    ghost function Here(now: Config, later: Config): Outlook
      requires 1 <= firstNonopt <= lastNonopt <= optind <= argv.Length && (nextchar != "" ==> optind < argv.Length)
      reads this, argv
    {
      OutlookOf(ordering, now, later, nextchar, argv[..], firstNonopt, lastNonopt, optind)
    }

    ghost predicate Placed()
      reads this
    {
      && 1 <= firstNonopt <= lastNonopt <= optind <= argv.Length && 1 <= optind && nextchar == ""
      && (ordering != Permute ==> firstNonopt == lastNonopt)
    }

    /** _getopt_initialize. */
    method Initialize(optstring: OptString) returns (rest: OptString)
      modifies this`firstNonopt, this`lastNonopt, this`nextchar, this`ordering
      ensures rest == Stripped(optstring) && ordering == ModeOf(optstring, posixlyCorrect)
      ensures ordering == if CharAt(optstring, 0, '-') then ReturnInOrder
                          else if CharAt(optstring, 0, '+') || posixlyCorrect then RequireOrder
                          else Permute
      ensures firstNonopt == lastNonopt == optind && nextchar == ""
    {
      firstNonopt, lastNonopt, nextchar := optind, optind, "";
      if CharAt(optstring, 0, '-') {
        ordering, rest := ReturnInOrder, optstring[1..];
      } else if CharAt(optstring, 0, '+') {
        ordering, rest := RequireOrder, optstring[1..];
      } else {
        ordering, rest := if posixlyCorrect then RequireOrder else Permute, optstring;
      }
    }

    /** exchange, with the record of where the non-options now are. */
    method MoveSkippedUp()
      requires 1 <= firstNonopt <= lastNonopt <= optind <= argv.Length
      modifies this`firstNonopt, this`lastNonopt, argv
      ensures argv[..] == Rotated(old(argv[..]), old(firstNonopt), old(lastNonopt), optind)
      ensures firstNonopt == old(firstNonopt) + (optind - old(lastNonopt)) && lastNonopt == optind
    {
      Exchange(argv, firstNonopt, lastNonopt, optind);
      firstNonopt := firstNonopt + (optind - lastNonopt);
      lastNonopt := optind;
    }

    /** PERMUTE: put the options seen since the skipped non-options before them. */
    method OptionsFirst(ghost now: Config, ghost later: Config)
      requires Placed()
      modifies this`firstNonopt, this`lastNonopt, argv
      ensures 1 <= firstNonopt <= optind
      ensures OutlookOf(ordering, now, later, "", argv[..], firstNonopt, optind, optind) == old(Here(now, later))
    {
      hide OutlookOf, Rotated;
      if firstNonopt != lastNonopt && lastNonopt != optind {
        OutlookRotated(ordering, now, later, argv[..], firstNonopt, lastNonopt, optind);
        MoveSkippedUp();
      } else if lastNonopt != optind {
        OutlookNoneSkipped(ordering, now, later, "", argv[..], firstNonopt, optind);
        firstNonopt := optind;
      }
    }

    /** PERMUTE: skip the non-options that come next. */
    method SkipNonoptions(ghost now: Config, ghost later: Config)
      requires Placed() && ordering == Permute
      modifies this`firstNonopt, this`lastNonopt, this`optind, argv
      ensures Placed() && lastNonopt == optind
      ensures Here(now, later) == old(Here(now, later))
      ensures optind < argv.Length ==> !NonOption(argv[optind])
    {
      hide OutlookOf;
      ghost var o := Here(now, later);
      OptionsFirst(now, later);
      while optind < argv.Length && NonOption(argv[optind])
        invariant 1 <= firstNonopt <= optind <= argv.Length
        invariant OutlookOf(Permute, now, later, "", argv[..], firstNonopt, optind, optind) == o
      {
        OutlookSkip(now, later, argv[..], firstNonopt, optind);
        optind := optind + 1;
      }
      lastNonopt := optind;
    }

    /** "--": pass it like an option, then take everything else for non-options. */
    method TakeDashes(ghost now: Config, ghost later: Config)
      requires Placed() && optind < argv.Length && argv[optind] == "--"
      modifies this`firstNonopt, this`lastNonopt, this`optind, argv
      ensures optind == lastNonopt == argv.Length
      ensures var o := old(Here(now, later));
              o.events == [] && argv[..] == o.options + o.operands && firstNonopt == |o.options|
    {
      hide OutlookOf;
      OutlookAtDashes(ordering, now, later, argv[..], firstNonopt, lastNonopt, optind);
      optind := optind + 1;
      if firstNonopt != lastNonopt && lastNonopt != optind {
        MoveSkippedUp();
      } else if firstNonopt == lastNonopt {
        NothingToRotate(argv[..], firstNonopt, optind);
        firstNonopt := optind;
      }
      lastNonopt := argv.Length;
      optind := argv.Length;
    }

    /** Go to the next element of argv, unless the scan is over. */
    method Advance(now: Config, ghost later: Config) returns (r: Advanced)
      requires Placed() && optarg == None
      modifies this`firstNonopt, this`lastNonopt, this`optind, this`nextchar, this`optarg, argv
      ensures var o := old(Here(now, later));
              match r
              case Exhausted => o.events == [] && argv[..] == o.options + o.operands && optind == |o.options|
                                && optarg == None
              case InOrder(e) => Placed() && o.events != [] && e == o.events[0] && optarg == e.arg && e.optopt == None
                                 && Here(later, later) == o.(events := o.events[1..])
              case Element => 1 <= firstNonopt <= lastNonopt <= optind < argv.Length && 1 <= optind && nextchar != ""
                              && (ordering != Permute ==> firstNonopt == lastNonopt)
                              && Here(now, later) == o && optarg == None
    {
      hide OutlookOf, Parse;
      if ordering == Permute {
        SkipNonoptions(now, later);
      }
      if optind != argv.Length && argv[optind] == "--" {
        TakeDashes(now, later);
        if firstNonopt != lastNonopt {
          optind := firstNonopt;
        }
        return Exhausted;
      }
      if optind == argv.Length {
        OutlookAtEnd(ordering, now, later, argv[..], firstNonopt, lastNonopt, optind);
        if firstNonopt != lastNonopt {
          optind := firstNonopt;
        }
        return Exhausted;
      }
      if NonOption(argv[optind]) {
        if ordering == RequireOrder {
          OutlookAtEnd(ordering, now, later, argv[..], firstNonopt, lastNonopt, optind);
          return Exhausted;
        }
        OutlookAtOperand(now, later, argv[..], firstNonopt, optind);
        OutlookNoneSkipped(ordering, later, later, "", argv[..], firstNonopt, optind + 1);
        optarg := Some(argv[optind]);
        optind := optind + 1;
        return InOrder(Plain(1, optarg));
      }
      OutlookAtElement(ordering, now, later, argv[..], firstNonopt, lastNonopt, optind);
      nextchar := if now.longopts.Some? && CharAt(argv[optind], 1, '-') then argv[optind][2..] else argv[optind][1..];
      return Element;
    }

    /** The state is that after step `s` from element `ind`. */
    ghost predicate After(s: Step, ind: int, before: int, e: Event)
      reads this
    {
      && e == s.event && nextchar == s.rest && optind == ind + s.used && optarg == e.arg
      && optopt == if e.optopt.Some? then e.optopt.value else before
    }

    /** The next letter of a group of short options. */
    method ShortOption(optstring: OptString) returns (e: Event)
      requires nextchar != "" && 0 <= optind < argv.Length && optarg == None
      modifies this`nextchar, this`optind, this`optarg, this`optopt
      ensures After(DecodeShort(optstring, old(nextchar), argv[old(optind) + 1..]), old(optind), old(optopt), e)
    {
      var c := nextchar[0];
      nextchar := nextchar[1..];
      var temp := MyIndex(optstring, c);
      if nextchar == "" {
        optind := optind + 1;
      }
      if temp.None? || c == ':' {
        optopt := c as int;
        return Bad('?' as int, optopt);
      }
      if CharAt(optstring, temp.value + 1, ':') {
        if CharAt(optstring, temp.value + 2, ':') {
          if nextchar != "" {
            optarg := Some(nextchar);
            optind := optind + 1;
          }
        } else if nextchar != "" {
          optarg := Some(nextchar);
          optind := optind + 1;
        } else if optind == argv.Length {
          optopt := c as int;
          return Bad(MissingRet(optstring), optopt);
        } else {
          optarg := Some(argv[optind]);
          optind := optind + 1;
        }
        nextchar := "";
      }
      return Plain(c as int, optarg);
    }

    /** A long option that has been found in the table. */
    method LongOptionFound(cfg: Config, option: LongOption, index: nat, nameend: nat) returns (e: Event)
      requires nextchar != "" && 0 <= optind < argv.Length && optarg == None
      requires nameend <= |nextchar| && nextchar[..nameend] == NameOf(nextchar)
      modifies this`nextchar, this`optind, this`optarg, this`optopt
      ensures After(DecodeFound(cfg, option, index, old(nextchar), argv[old(optind) + 1..]),
                    old(optind), old(optopt), e)
    {
      optind := optind + 1;
      if nameend < |nextchar| {
        if option.hasArg != 0 {
          optarg := Some(nextchar[nameend + 1..]);
        } else {
          nextchar := "";
          optopt := option.val;
          return Bad('?' as int, optopt);
        }
      } else if option.hasArg == 1 {
        if optind < argv.Length {
          optarg := Some(argv[optind]);
          optind := optind + 1;
        } else {
          nextchar := "";
          optopt := option.val;
          return Bad(MissingRet(cfg.optstring), optopt);
        }
      }
      nextchar := "";
      if option.flag.Some? {
        return Event(0, optarg, None, Some(index), Some((option.flag.value, option.val)));
      }
      return Event(option.val, optarg, None, Some(index), None);
    }

    /** Decode the option at nextchar in argv[optind]. */
    method DecodeOption(cfg: Config) returns (e: Event)
      requires nextchar != "" && 0 <= optind < argv.Length && optarg == None
      modifies this`nextchar, this`optind, this`optarg, this`optopt
      ensures After(Decode(cfg, argv[old(optind)], old(nextchar), argv[old(optind) + 1..]), old(optind), old(optopt), e)
    {
      hide DecodeShort, DecodeFound, LookupLong;
      var elem := argv[optind];
      var letter := None;
      if 1 < |elem| {
        letter := MyIndex(cfg.optstring, elem[1]);
      }
      if cfg.longopts.Some? && (CharAt(elem, 1, '-') || (cfg.longOnly && 1 < |elem| && (2 < |elem| || letter.None?))) {
        var nameend := NameEnd(nextchar);
        var pfound, exact, ambig := SearchLong(cfg.longopts.value, nextchar[..nameend], cfg.longOnly);
        if ambig && !exact {
          nextchar := "";
          optind := optind + 1;
          optopt := 0;
          return Bad('?' as int, 0);
        }
        if pfound.Some? {
          e := LongOptionFound(cfg, cfg.longopts.value[pfound.value], pfound.value, nameend);
          return;
        }
        var short := MyIndex(cfg.optstring, nextchar[0]);
        if !cfg.longOnly || CharAt(elem, 1, '-') || short.None? {
          nextchar := "";
          optind := optind + 1;
          optopt := 0;
          return Bad('?' as int, 0);
        }
      }
      e := ShortOption(cfg.optstring);
    }

    /** Decode one option and pass what it used of argv. */
    method TakeOption(now: Config, ghost later: Config) returns (e: Event)
      requires 1 <= firstNonopt <= lastNonopt <= optind < argv.Length && 1 <= optind && nextchar != "" && optarg == None
      modifies this`nextchar, this`optind, this`optarg, this`optopt
      ensures lastNonopt <= optind <= argv.Length && 1 <= optind && (nextchar != "" ==> optind < argv.Length)
      ensures var o := old(Here(now, later));
              o.events != [] && e == o.events[0] && Here(later, later) == o.(events := o.events[1..])
      ensures optarg == e.arg && optopt == (if e.optopt.Some? then e.optopt.value else old(optopt))
    {
      hide Decode, OutlookOf;
      ghost var s := Decode(now, argv[optind], nextchar, argv[optind + 1..]);
      OutlookStep(ordering, now, later, nextchar, argv[..], firstNonopt, lastNonopt, optind, s);
      e := DecodeOption(now);
    }

    /** The start of a call: initialise if it is the first one, and give the record
        of non-options rational values if the caller has moved optind back. */
    method Begin(cfg: Config) returns (now: Config)
      requires Valid() && argv.Length > 0
      modifies this`optind, this`initialized, this`firstNonopt, this`lastNonopt, this`nextchar, this`ordering
      ensures 1 <= firstNonopt <= lastNonopt <= optind <= argv.Length && 1 <= optind
              && (nextchar != "" ==> optind < argv.Length)
      ensures ordering != Permute ==> firstNonopt == lastNonopt
      ensures !Fresh() && Here(now, cfg) == old(Outlook(cfg))
    {
      now := cfg;
      if optind == 0 || !initialized {
        if optind == 0 {
          optind := 1;
        }
        var optstring := Initialize(cfg.optstring);
        now := cfg.(optstring := optstring);
        initialized := true;
      }
      if nextchar == "" {
        if lastNonopt > optind {
          lastNonopt := optind;
        }
        if firstNonopt > optind {
          firstNonopt := optind;
        }
      }
    }

    /** _getopt_internal: one call.  None is the -1 of a finished scan. */
    method Next(cfg: Config) returns (r: Option<Event>)
      requires Valid()
      modifies this, argv
      ensures r.Some? ==> Valid() && 1 <= firstNonopt <= lastNonopt <= optind <= argv.Length
      ensures argv.Length == 0 ==> r == None
      ensures argv.Length > 0 ==>
                var o := old(Outlook(cfg));
                match r
                case None => o.events == [] && argv[..] == o.options + o.operands && optind == |o.options|
                             && optarg == None
                case Some(e) => o.events != [] && e == o.events[0] && optarg == e.arg
                                && optopt == (if e.optopt.Some? then e.optopt.value else old(optopt))
                                && !Fresh() && Outlook(cfg) == o.(events := o.events[1..])
    {
      hide OutlookOf, OutlookFrom;
      if argv.Length < 1 {
        return None;
      }
      optarg := None;
      var now := Begin(cfg);
      if nextchar == "" {
        var a := Advance(now, cfg);
        match a {
          case Exhausted => return None;
          case InOrder(e) => return Some(e);
          case Element =>
        }
      }
      var e := TakeOption(now, cfg);
      return Some(e);
    }

    /** The caller's loop: call until the scan is finished. */
    method ScanAll(cfg: Config) returns (events: seq<Event>)
      requires Valid() && argv.Length > 0
      modifies this, argv
      ensures var o := old(Outlook(cfg));
              events == o.events && argv[..] == o.options + o.operands && optind == |o.options|
    {
      hide OutlookOf;
      events := [];
      ghost var o := Outlook(cfg);
      while true
        invariant Valid()
        invariant Outlook(cfg) == o.(events := Outlook(cfg).events) && events + Outlook(cfg).events == o.events
        decreases |Outlook(cfg).events|
      {
        var r := Next(cfg);
        match r {
          case None => return;
          case Some(e) => events := events + [e];
        }
      }
    }

    /** The same after the caller has moved optind: the reading of what is there now, and
        of the non-options skipped so far those before that place stay skipped. */
    method ScanFrom(start: int, cfg: Config) returns (events: seq<Event>)
      requires Valid() && !Fresh() && nextchar == "" && 1 <= start <= argv.Length
      modifies this, argv
      ensures var first, last := Min(old(firstNonopt), start), Min(old(lastNonopt), start);
              var p := Parse(old(ordering), cfg, cfg, "", old(argv[start..]));
              && events == p.events
              && argv[..] == old(argv[..first]) + old(argv[last..start]) + p.options
                             + (old(argv[first..last]) + p.operands)
              && optind == first + (start - last) + |p.options|
    {
      hide Parse;
      optind := start;
      ghost var first, last := Min(firstNonopt, start), Min(lastNonopt, start);
      assert argv[..][..first] == argv[..first] && argv[..][last..start] == argv[last..start];
      assert argv[..][first..last] == argv[first..last] && argv[..][start..] == argv[start..];
      events := ScanAll(cfg);
    }

    /** The same from the start of argv: on a fresh program, or with optind set to 0. */
    method ScanFromStart(cfg: Config) returns (events: seq<Event>)
      requires argv.Length > 0
      modifies this, argv
      ensures var p := Parse(ModeOf(cfg.optstring, posixlyCorrect), cfg.(optstring := Stripped(cfg.optstring)), cfg,
                             "", old(argv[1..]));
              && events == p.events
              && argv[..] == [old(argv[0])] + p.options + p.operands
              && optind == 1 + |p.options|
    {
      hide Parse, Stripped, ModeOf;
      if initialized || optind != 1 {
        optind := 0;
      }
      assert argv[..][1..] == argv[1..] && argv[..][..1] == [argv[0]];
      events := ScanAll(cfg);
    }
  }

  /**
    A whole run on a fresh program: every call's result is the one that a plain
    left-to-right reading of the original argv gives, in order, and argv is left
    as the program name, the option matter and the operands, both in the order
    in which they were given, with optind at the first operand.
   */
  method GetoptRun(argv: array<string>, cfg: Config, posixlyCorrect: bool) returns (events: seq<Event>, optind: int)
    requires argv.Length > 0
    modifies argv
    ensures var mode := if CharAt(cfg.optstring, 0, '-') then ReturnInOrder
                        else if CharAt(cfg.optstring, 0, '+') || posixlyCorrect then RequireOrder
                        else Permute;
            var prefixed := CharAt(cfg.optstring, 0, '-') || CharAt(cfg.optstring, 0, '+');
            var now := if prefixed then cfg.(optstring := cfg.optstring[1..]) else cfg;
            var p := Parse(mode, now, cfg, "", old(argv[1..]));
            && events == p.events
            && argv[..] == [old(argv[0])] + p.options + p.operands
            && Merge(old(argv[1..]), p.options, p.operands)
            && optind == 1 + |p.options|
  {
    Selected(cfg, posixlyCorrect);
    hide Parse, Merge, Stripped, ModeOf, CharAt;
    var scanner := new Scanner(argv, posixlyCorrect);
    StablePartition(ModeOf(cfg.optstring, posixlyCorrect), cfg.(optstring := Stripped(cfg.optstring)), cfg,
                    "", argv[1..]);
    events := scanner.ScanFromStart(cfg);
    optind := scanner.optind;
  }

  /** The ordering, and what the first call makes of the option string: "-" asks for
      operands in order, "+" or the environment for a stop at the first operand. */
  lemma Selected(cfg: Config, posixlyCorrect: bool)
    ensures ModeOf(cfg.optstring, posixlyCorrect)
         == if CharAt(cfg.optstring, 0, '-') then ReturnInOrder
            else if CharAt(cfg.optstring, 0, '+') || posixlyCorrect then RequireOrder
            else Permute
    ensures Stripped(cfg.optstring)
         == if CharAt(cfg.optstring, 0, '-') || CharAt(cfg.optstring, 0, '+') then cfg.optstring[1..] else cfg.optstring
  {
  }

  /**
    Scanning again from the start, as a caller may ask for by setting optind to 0: a
    permuted argv is left as it is and gives the same events -- exactly unless the last
    option lacks its argument while there are operands to take for it.
   */
  method GetoptTwice(argv: array<string>, cfg: Config, posixlyCorrect: bool)
    returns (events: seq<Event>, optind: int, events': seq<Event>, optind': int, ghost between: seq<string>)
    requires argv.Length > 0 && !posixlyCorrect && !CharAt(cfg.optstring, 0, '-') && !CharAt(cfg.optstring, 0, '+')
    modifies argv
    ensures var p := Parse(Permute, cfg, cfg, "", old(argv[1..]));
            && events == p.events && between == [old(argv[0])] + p.options + p.operands && optind == 1 + |p.options|
            && (events' == events && argv[..] == between && optind' == optind <==> !(p.starved && p.operands != []))
  {
    Selected(cfg, posixlyCorrect);
    PermutedServesEveryScan(cfg, cfg, argv[1..]);
    ghost var p := Parse(Permute, cfg, cfg, "", argv[1..]);
    ghost var q := Parse(Permute, cfg, cfg, "", p.options + p.operands);
    SameSplit(argv[0], p.options, p.operands, q.options, q.operands);
    hide *;
    var scanner := new Scanner(argv, posixlyCorrect);
    events := scanner.ScanFromStart(cfg);
    optind, between := scanner.optind, argv[..];
    assert argv[1..] == between[1..];
    events' := scanner.ScanFromStart(cfg);
    optind' := scanner.optind;
  }

  lemma SameSplit(name: string, a: seq<string>, b: seq<string>, c: seq<string>, d: seq<string>)
    ensures ([name] + a + b)[1..] == a + b
    ensures c == a && d == b <==> [name] + c + d == [name] + a + b && |c| == |a|
  {
    var x, y := [name] + c + d, [name] + a + b;
    if x == y && |a| == |c| {
      assert y[1..1 + |a|] == a && y[1 + |a|..] == b && x[1..1 + |c|] == c && x[1 + |c|..] == d;
    }
  }

  /**
    What a user sees: write any options and operands in any order and spelling, and
    getopt hands out exactly the options of its ordering, in their order, and leaves
    exactly its operands, in their order, from optind on.
   */
  method GetoptReadsBack(argv: array<string>, cfg: Config, posixlyCorrect: bool,
                         ghost items: seq<Item>, ghost end: Option<seq<string>>)
    returns (events: seq<Event>, optind: int)
    requires argv.Length > 0 && Paired(cfg.(optstring := Stripped(cfg.optstring)), cfg)
    requires AllWritable(cfg.(optstring := Stripped(cfg.optstring)), items) && AllWritable(cfg, items)
    requires argv[1..] == RenderAll(items, end)
    modifies argv
    ensures 1 <= optind <= argv.Length && argv[0] == old(argv[0])
    ensures CharAt(cfg.optstring, 0, '-') ==> events == EventsInOrder(cfg, items) && argv[optind..] == Ending(end)
    ensures !CharAt(cfg.optstring, 0, '-') && (CharAt(cfg.optstring, 0, '+') || posixlyCorrect) ==>
              forall k: nat :: FirstOperand(items, k) ==>
                && events == OptionEvents(cfg, items[..k])
                && argv[optind..] == if k < |items| then RenderAll(items[k..], end) else Ending(end)
    ensures !CharAt(cfg.optstring, 0, '-') && !CharAt(cfg.optstring, 0, '+') && !posixlyCorrect ==>
              events == OptionEvents(cfg, items) && argv[optind..] == OperandElems(items) + Ending(end)
  {
    Selected(cfg, posixlyCorrect);
    ghost var mode, now := ModeOf(cfg.optstring, posixlyCorrect), cfg.(optstring := Stripped(cfg.optstring));
    hide Parse, Merge, AllWritable, RenderAll, MeaningAll, OperandsOf, Stripped, ModeOf, CharAt, FirstOperand;
    MeaningPermuted(cfg, items, end);
    MeaningInOrder(cfg, items, end);
    forall k: nat | FirstOperand(items, k)
      ensures k <= |items| && AllWritable(cfg, items[..k])
      ensures MeaningAll(RequireOrder, cfg, items) == OptionEvents(cfg, items[..k])
      ensures OperandsOf(RequireOrder, items, end) == if k < |items| then RenderAll(items[k..], end) else Ending(end)
    {
      MeaningUpToOperand(cfg, items, end, k);
    }
    ReadBack(mode, now, cfg, items, end);
    events, optind := GetoptRun(argv, cfg, posixlyCorrect);
    ghost var p := Parse(mode, now, cfg, "", old(argv[1..]));
    assert argv[..][optind..] == p.operands;
  }

  lemma NothingToRotate(argv: seq<string>, first: int, ind: int)
    requires 0 <= first <= ind <= |argv|
    ensures Rotated(argv, first, first, ind) == argv
  {
  }

  function Min(x: int, y: int): int {
    if x <= y then x else y
  }
}
