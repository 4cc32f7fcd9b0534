/** Laws of the reading in CommandLine.dfy. */
module CommandLineLaws {
  import opened Options
  import opened CommandLine

  // ---------- reading on ----------

  /** What is left to read after one option. */
  lemma ParseContinues(mode: Ordering, now: Config, later: Config, text: string, args: seq<string>)
    requires text != "" && args != []
    ensures var s := Decode(now, args[0], text, args[1..]);
            var p, q := Parse(mode, now, later, text, args), Parse(mode, later, later, s.rest, args[s.used..]);
            && p.events != [] && p.events[0] == s.event && p.events[1..] == q.events
            && p.options == args[..s.used] + q.options && p.operands == q.operands
            && p.starved == (s.starved || q.starved) && p.dashed == q.dashed
  {
  }

  /** What getopt promises of one option letter: it is complained about exactly if it
      is not in the list or lacks its argument, optopt then names it, ':' is returned
      only for a missing argument; otherwise the letter itself is returned.  Every
      character of the element goes into the letter, its argument or the rest. */
  lemma ShortOutcome(optstring: OptString, text: string, tail: seq<string>)
    requires text != ""
    ensures var s, c := DecodeShort(optstring, text, tail), text[0];
            && (s.event.optopt.Some? <==> c !in optstring || c == ':' || s.starved)
            && (s.event.optopt.Some? ==> s.event.optopt == Some(c as int) && s.event.arg == None)
            && (s.event.optopt.Some? ==>
                s.event.ret == (if s.starved && CharAt(optstring, 0, ':') then ':' else '?') as int)
            && (s.event.optopt.None? ==> s.event.ret == c as int)
            && s.event.longind == None && s.event.store == None
            && (s.starved <==> ArityOf(optstring, c) == Required && text == [c] && tail == [])
            && (s.event.arg.Some? ==>
                ArityOf(optstring, c) == Required || ArityOf(optstring, c) == Optional)
            && (ArityOf(optstring, c) == Required ==> s.event.arg.Some? || s.starved)
            && (s.used < 2 ==> text == [c] + (if s.event.arg.Some? then s.event.arg.value else s.rest))
            && (s.used == 2 ==> text == [c] && s.event.arg == Some(tail[0]) && ArityOf(optstring, c) == Required)
  {
  }

  /** What the option string says of a letter: its first entry counts, one colon after
      it means an argument, two an optional one; a colon is not a letter. */
  lemma ArityMeaning(before: string, c: char, after: string)
    requires c !in before
    ensures ArityOf(before, c) == Unknown
    ensures c == ':' ==> ArityOf(before + [c] + after, c) == Unknown
    ensures c != ':' ==>
              match ArityOf(before + [c] + after, c)
              case Unknown => false
              case NoArgument => after == "" || after[0] != ':'
              case Required => |after| > 0 && after[0] == ':' && (|after| > 1 ==> after[1] != ':')
              case Optional => |after| > 1 && after[0] == ':' && after[1] == ':'
  {
    var s := before + [c] + after;
    assert s[|before|] == c && s[..|before|] == before;
    var i := FirstIndex(s, c).value;
    assert i <= |before|;
    assert forall k :: 0 <= k < |before| ==> s[k] == before[k];
  }

  /** The same promises for an element that may be a long option: with a table of them,
      after "--", or under long_only after "-" unless the whole element is one letter of
      the list.  What is in the table returns its value or stores it through its flag,
      and its index; what is ambiguous or in no table is complained about without naming
      a value, but a name that is in no table falls back to letters after one dash. */
  lemma LongOutcome(cfg: Config, elem: string, text: string, tail: seq<string>)
    requires text != ""
    ensures var s := Decode(cfg, elem, text, tail);
            var dashes := |elem| > 1 && elem[1] == '-';
            var tried := cfg.longopts.Some?
                         && (dashes || (cfg.longOnly && |elem| > 1 && !(|elem| == 2 && elem[1] in cfg.optstring)));
            if !tried then s == DecodeShort(cfg.optstring, text, tail)
            else
              var r := LookupLong(cfg.longopts.value, NameOf(text), cfg.longOnly);
              if r.Found? then FoundOutcome(cfg.optstring, cfg.longopts.value[r.index], r.index, text, tail, s)
              else if r.NotFound? && cfg.longOnly && !dashes && text[0] in cfg.optstring then
                s == DecodeShort(cfg.optstring, text, tail)
              else s == Step(Event('?' as int, None, Some(0), None, None), "", 1, false)
  {
    hide DecodeShort, DecodeFound, LookupLong, FoundOutcome, NameOf;
    if TriesLong(cfg, elem) {
      LookupLongMeaning(cfg.longopts.value, NameOf(text), cfg.longOnly);
      var r := LookupLong(cfg.longopts.value, NameOf(text), cfg.longOnly);
      if r.Found? {
        FoundAsPromised(cfg, cfg.longopts.value[r.index], r.index, text, tail);
      }
    }
  }

  lemma FoundAsPromised(cfg: Config, o: LongOption, index: nat, text: string, tail: seq<string>)
    ensures FoundOutcome(cfg.optstring, o, index, text, tail, DecodeFound(cfg, o, index, text, tail))
  {
  }

  ghost predicate FoundOutcome(optstring: string, o: LongOption, index: nat, text: string, tail: seq<string>, s: Step) {
    var name, e := NameOf(text), s.event;
    && s.rest == "" && (s.used == 1 || s.used == 2)
    && (s.starved <==> name == text && o.hasArg == 1 && tail == [])
    && (e.optopt.Some? <==> s.starved || (name != text && o.hasArg == 0))
    && (e.optopt.Some? ==>
        && e == Event(e.ret, None, Some(o.val), None, None) && s.used == 1
        && e.ret == (if s.starved && optstring != "" && optstring[0] == ':' then ':' else '?') as int)
    && (e.optopt.None? ==>
        && e.longind == Some(index)
        && e.ret == (if o.flag.Some? then 0 else o.val)
        && e.store == (if o.flag.Some? then Some((o.flag.value, o.val)) else None)
        && (s.used == 2 <==> o.hasArg == 1 && text == name)
        && (s.used == 2 ==> e.arg == Some(tail[0]))
        && (s.used == 1 ==> text == name + if e.arg.Some? then "=" + e.arg.value else ""))
  }

  // ---------- the permuted argv is a stable partition ----------

  /** `whole` is `x` and `y` merged, each keeping its own order. */
  ghost predicate Merge(whole: seq<string>, x: seq<string>, y: seq<string>) {
    if whole == [] then x == [] && y == []
    else
      || (x != [] && x[0] == whole[0] && Merge(whole[1..], x[1..], y))
      || (y != [] && y[0] == whole[0] && Merge(whole[1..], x, y[1..]))
  }

  lemma {:induction false} MergePrefix(prefix: seq<string>, whole: seq<string>, x: seq<string>, y: seq<string>)
    requires Merge(whole, x, y)
    ensures Merge(prefix + whole, prefix + x, y)
  {
    if prefix == [] {
      assert prefix + whole == whole && prefix + x == x;
    } else {
      MergePrefix(prefix[1..], whole, x, y);
      assert (prefix + whole)[1..] == prefix[1..] + whole;
      assert (prefix + x)[1..] == prefix[1..] + x;
    }
  }

  lemma {:induction false} MergeRight(y: seq<string>)
    ensures Merge(y, [], y)
  {
    if y != [] {
      MergeRight(y[1..]);
    }
  }

  /** Every element of argv is either option matter or an operand, and neither
      kind changes its own order: in all three modes, for every argv. */
  lemma {:induction false} StablePartition(mode: Ordering, first: Config, later: Config, text: string,
                                           args: seq<string>)
    requires text != "" ==> args != []
    ensures var p := Parse(mode, first, later, text, args);
            Merge(args, p.options, p.operands)
    decreases |args|, if text == "" && args != [] then |args[0]| else |text|
  {
    if text != "" {
      ContinuePartition(mode, first, later, text, args);
    } else if args == [] {
    } else if args[0] == "--" {
      MergeRight(args[1..]);
    } else if NonOption(args[0]) {
      if mode == RequireOrder {
        MergeRight(args);
      } else {
        StablePartition(mode, if mode == Permute then first else later, later, "", args[1..]);
      }
    } else {
      ContinuePartition(mode, first, later, OptionText(first, args[0]), args);
    }
  }

  lemma {:induction false} ContinuePartition(mode: Ordering, first: Config, later: Config, text: string,
                                             args: seq<string>)
    requires text != "" && args != []
    ensures var p := Continue(mode, first, later, text, args);
            Merge(args, p.options, p.operands)
    decreases |args|, |text|, 0
  {
    var s := Decode(first, args[0], text, args[1..]);
    var p := Parse(mode, later, later, s.rest, args[s.used..]);
    StablePartition(mode, later, later, s.rest, args[s.used..]);
    MergePrefix(args[..s.used], args[s.used..], p.options, p.operands);
    assert args[..s.used] + args[s.used..] == args;
  }

  /** In order, every element up to a "--" is handed out, whatever the command line:
      only "--" makes the scan end before the end of argv. */
  lemma {:induction false} InOrderHandsOutAll(first: Config, later: Config, text: string, args: seq<string>)
    requires text != "" ==> args != []
    ensures var p := Parse(ReturnInOrder, first, later, text, args);
            !p.dashed ==> p.operands == [] && p.options == args
    decreases |args|, if text == "" && args != [] then |args[0]| else |text|
  {
    if text == "" && args != [] && args[0] != "--" && NonOption(args[0]) {
      InOrderHandsOutAll(later, later, "", args[1..]);
    } else if text != "" || (args != [] && args[0] != "--") {
      var t := if text != "" then text else OptionText(first, args[0]);
      var s := Decode(first, args[0], t, args[1..]);
      InOrderHandsOutAll(later, later, s.rest, args[s.used..]);
      assert args[..s.used] + args[s.used..] == args;
    }
  }

  // ---------- scanning the permuted argv again ----------

  /** `s` and `s'` decode the same text with different elements after it. */
  predicate SameButForArgument(s: Step, s': Step, tail: seq<string>, tail': seq<string>) {
    && (!s.starved && s.used <= 1 ==> s' == s)
    && (s.used == 2 ==> tail != [])
    && (s.used == 2 && tail' != [] && tail'[0] == tail[0] ==> s' == s)
    && (s.starved ==> tail == [] && s.used == 1 && s.event.arg == None)
    && (s.starved && tail' != [] ==> s'.event.arg == Some(tail'[0]))
  }

  lemma DecodeShortTail(optstring: OptString, text: string, tail: seq<string>, tail': seq<string>)
    requires text != ""
    ensures SameButForArgument(DecodeShort(optstring, text, tail), DecodeShort(optstring, text, tail'), tail, tail')
  {
  }

  lemma DecodeFoundTail(cfg: Config, o: LongOption, index: nat, text: string, tail: seq<string>, tail': seq<string>)
    ensures SameButForArgument(DecodeFound(cfg, o, index, text, tail), DecodeFound(cfg, o, index, text, tail'),
                               tail, tail')
  {
  }

  /** A step looks past its element only for a separate argument. */
  lemma DecodeTail(cfg: Config, elem: string, text: string, tail: seq<string>, tail': seq<string>)
    requires text != ""
    ensures SameButForArgument(Decode(cfg, elem, text, tail), Decode(cfg, elem, text, tail'), tail, tail')
  {
    DecodeShortTail(cfg.optstring, text, tail, tail');
    if TriesLong(cfg, elem) {
      match LookupLong(cfg.longopts.value, NameOf(text), cfg.longOnly)
      case Found(i) =>
        LookupLongMeaning(cfg.longopts.value, NameOf(text), cfg.longOnly);
        DecodeFoundTail(cfg, cfg.longopts.value[i], i, text, tail, tail');
      case _ =>
    }
  }

  /** A starved option is the last thing on the command line. */
  lemma StarvedLast(cfg: Config, elem: string, text: string, tail: seq<string>)
    requires text != ""
    ensures var s := Decode(cfg, elem, text, tail);
            s.starved ==> tail == [] && s.used == 1 && s.rest == ""
  {
    DecodeTail(cfg, elem, text, tail, tail);
  }

  /** Nothing in `z` would be taken for an option by a scan that starts there. */
  predicate Inert(mode: Ordering, z: seq<string>) {
    match mode
    case RequireOrder => z == [] || (NonOption(z[0]) && z[0] != "--")
    case Permute => forall i :: 0 <= i < |z| ==> NonOption(z[i])
    case ReturnInOrder => z == []
  }

  lemma {:induction false} ParseInert(mode: Ordering, first: Config, later: Config, z: seq<string>)
    requires Inert(mode, z)
    ensures Parse(mode, first, later, "", z) == Parsed([], [], z, false, false)
  {
    if z != [] && mode == Permute {
      ParseInert(mode, first, later, z[1..]);
    }
  }

  /** The operands found before any "--" do not look like options. */
  lemma {:induction false} OperandsInert(first: Config, later: Config, text: string, args: seq<string>)
    requires text != "" ==> args != []
    ensures var p := Parse(Permute, first, later, text, args);
            && (!p.dashed ==> Inert(Permute, p.operands))
            && (!p.dashed ==> forall o :: o in p.operands ==> o == "" || o == "-" || o[0] != '-')
    decreases |args|, if text == "" && args != [] then |args[0]| else |text|
  {
    if text != "" || (args != [] && args[0] != "--" && !NonOption(args[0])) {
      var t := if text != "" then text else OptionText(first, args[0]);
      var s := Decode(first, args[0], t, args[1..]);
      OperandsInert(later, later, s.rest, args[s.used..]);
    } else if args != [] && args[0] != "--" {
      OperandsInert(first, later, "", args[1..]);
    }
  }

  /** Put the option matter of a permuting scan in front of operands `z` and scan
      again: an option that lacked its argument is the only thing that can change. */
  lemma {:induction false} Rescan(mode: Ordering, first: Config, later: Config, text: string, args: seq<string>,
                                  z: seq<string>)
    requires text != "" ==> args != []
    requires mode != ReturnInOrder
    requires Parse(Permute, first, later, text, args).dashed || Inert(mode, z)
    ensures var p := Parse(Permute, first, later, text, args);
            && (text != "" ==> p.options != [])
            && Rescanned(p, Parse(mode, first, later, text, p.options + z), z)
    decreases |args|, if text == "" && args != [] then |args[0]| else |text|
  {
    if text != "" {
      RescanStep(mode, first, later, text, args, z);
    } else if args == [] {
      ParseInert(mode, first, later, z);
      assert [] + z == z;
    } else if args[0] == "--" {
    } else if NonOption(args[0]) {
      Rescan(mode, first, later, "", args[1..], z);
    } else {
      RescanStep(mode, first, later, OptionText(first, args[0]), args, z);
    }
  }

  /** What Rescan says of a scan that read `p` where the scan of the reordered line reads `q`. */
  ghost predicate Rescanned(p: Parsed, q: Parsed, z: seq<string>) {
    if !p.starved || z == [] then q == Parsed(p.events, p.options, z, p.dashed, p.starved)
    else q.events != p.events
  }

  lemma {:induction false} RescanStep(mode: Ordering, first: Config, later: Config, text: string, args: seq<string>,
                                      z: seq<string>)
    requires text != "" && args != [] && mode != ReturnInOrder
    requires Continue(Permute, first, later, text, args).dashed || Inert(mode, z)
    ensures var p := Continue(Permute, first, later, text, args);
            && p.options != [] && p.options[0] == args[0]
            && Rescanned(p, Continue(mode, first, later, text, p.options + z), z)
    decreases |args|, |text|, 0
  {
    var s := Decode(first, args[0], text, args[1..]);
    var rest := args[s.used..];
    if s.starved {
      RescanStarved(mode, first, later, text, args, z);
    } else {
      hide Decode, Parse, Rescanned;
      Rescan(mode, later, later, s.rest, rest, z);
      FirstElement(later, s.rest, rest);
      RescanGoesOn(mode, first, later, text, args, z);
    }
  }

  lemma RescanStarved(mode: Ordering, first: Config, later: Config, text: string, args: seq<string>, z: seq<string>)
    requires text != "" && args != [] && Decode(first, args[0], text, args[1..]).starved
    ensures var p := Continue(Permute, first, later, text, args);
            && p.options != [] && p.options[0] == args[0]
            && Rescanned(p, Continue(mode, first, later, text, p.options + z), z)
  {
    hide Decode;
    var s := Decode(first, args[0], text, args[1..]);
    StarvedLast(first, args[0], text, args[1..]);
    SameStepAgain(first, text, args, s, z);
    var r := Parse(Permute, later, later, s.rest, args[s.used..]);
    assert r == Parsed([], [], [], false, false);
    assert [s.event] + r.events == [s.event] && args[..s.used] + r.options == [args[0]];
    var p := Continue(Permute, first, later, text, args);
    assert p == Parsed([s.event], [args[0]], [], false, true);
    var again := [args[0]] + z;
    if z == [] {
      assert again == args && args[..1] + [] == args;
    } else {
      assert p.events[0] == s.event;
      assert Continue(mode, first, later, text, again).events[0] == Decode(first, again[0], text, again[1..]).event;
    }
  }

  lemma RescanGoesOn(mode: Ordering, first: Config, later: Config, text: string, args: seq<string>, z: seq<string>)
    requires text != "" && args != [] && !Decode(first, args[0], text, args[1..]).starved
    requires var s := Decode(first, args[0], text, args[1..]);
             var r := Parse(Permute, later, later, s.rest, args[s.used..]);
             && (s.rest != "" ==> r.options != [] && r.options[0] == args[0])
             && Rescanned(r, Parse(mode, later, later, s.rest, r.options + z), z)
    ensures var p := Continue(Permute, first, later, text, args);
            && p.options != [] && p.options[0] == args[0]
            && Rescanned(p, Continue(mode, first, later, text, p.options + z), z)
  {
    hide Decode, Parse;
    var s := Decode(first, args[0], text, args[1..]);
    var r := Parse(Permute, later, later, s.rest, args[s.used..]);
    var again, again' := args[..s.used] + (r.options + z), Parse(mode, later, later, s.rest, r.options + z);
    assert Continue(Permute, first, later, text, args).options + z == again;
    SameStepAgain(first, text, args, s, r.options + z);
    assert ([s.event] + again'.events)[1..] == again'.events && ([s.event] + r.events)[1..] == r.events;
  }

  /** The first step of the second scan is that of the first one. */
  lemma SameStepAgain(cfg: Config, text: string, args: seq<string>, s: Step, more: seq<string>)
    requires text != "" && args != [] && s == Decode(cfg, args[0], text, args[1..])
    requires s.rest != "" ==> more != [] && more[0] == args[0]
    ensures var again := args[..s.used] + more;
            && again != [] && again[0] == args[0]
            && again[s.used..] == more && again[..s.used] == args[..s.used]
            && (!s.starved ==> Decode(cfg, again[0], text, again[1..]) == s)
            && (s.starved ==> again[1..] == more && args == [args[0]] && s.event.arg == None && s.used == 1
                              && (more == [] ==> Decode(cfg, again[0], text, again[1..]) == s)
                              && (more != [] ==> Decode(cfg, again[0], text, again[1..]).event.arg == Some(more[0])))
  {
    var again := args[..s.used] + more;
    DecodeTail(cfg, args[0], text, args[1..], again[1..]);
    assert s.used == 2 ==> again[1] == args[1];
  }

  /** A half-read element stays the first element of the option matter. */
  lemma FirstElement(cfg: Config, text: string, args: seq<string>)
    requires text != "" ==> args != []
    ensures var p := Parse(Permute, cfg, cfg, text, args);
            text != "" ==> p.options != [] && p.options[0] == args[0]
    decreases |args|, |text|
  {
    if text != "" {
      var s := Decode(cfg, args[0], text, args[1..]);
      FirstElement(cfg, s.rest, args[s.used..]);
    }
  }

  /** A program that knows nothing of permuting can scan the permuted argv and
      gets the same options and the same operands -- exactly unless the last
      option lacks its argument while there are operands to take for it. */
  lemma PermutedServesEveryScan(first: Config, later: Config, args: seq<string>)
    ensures var p := Parse(Permute, first, later, "", args);
            var posix := Parse(RequireOrder, first, later, "", p.options + p.operands);
            var again := Parse(Permute, first, later, "", p.options + p.operands);
            && ((posix.events == p.events && posix.options == p.options && posix.operands == p.operands)
                <==> !(p.starved && p.operands != []))
            && ((again.events == p.events && again.options == p.options && again.operands == p.operands)
                <==> !(p.starved && p.operands != []))
  {
    var p := Parse(Permute, first, later, "", args);
    OperandsInert(first, later, "", args);
    Rescan(RequireOrder, first, later, "", args, p.operands);
    Rescan(Permute, first, later, "", args, p.operands);
  }

  /** The exception is real: `prog x -o` with optstring "o:". */
  lemma PermutedStarves()
    ensures var cfg := Config("o:", None, false);
            var p := Parse(Permute, cfg, cfg, "", ["x", "-o"]);
            && p.options + p.operands == ["-o", "x"]
            && p.events == [Bad('?' as int, 'o' as int)]
            && Parse(Permute, cfg, cfg, "", ["-o", "x"]).events == [Plain('o' as int, Some("x"))]
  {
  }
}
