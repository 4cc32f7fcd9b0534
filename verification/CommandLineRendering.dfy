/**
  Writing a command line and reading it back: whatever a user means by options
  and operands, in whatever order and in whichever of the allowed spellings, is
  what the scan reports (IEEE Std 1003.1, Base Definitions, section 12.2,
  guidelines 4 to 10, with getopt's long options and optional arguments).
 */
module CommandLineRendering {
  import opened Options
  import opened CommandLine
  import opened CommandLineLaws

  datatype Argument = Absent | Joined(value: string) | Apart(value: string) {
    function Get(): Option<string> {
      if Absent? then None else Some(value)
    }
  }

  /** "-abc", "-abcVALUE", "-abc VALUE"; "--name", "--name=VALUE", "--name VALUE", the
      name in full or abbreviated; an operand. */
  datatype Item =
    | Short(flags: string, last: char, arg: Argument)
    | Long(index: nat, typed: string, arg: Argument)
    | Operand(elem: string)

  ghost predicate Writable(cfg: Config, item: Item) {
    match item
    case Short(flags, last, arg) =>
      && ((flags + [last])[0] == '-' ==> cfg.longopts.None? && flags != "")
      && (forall c :: c in flags ==> ArityOf(cfg.optstring, c) == NoArgument)
      && (var arity := ArityOf(cfg.optstring, last);
          match arg
          case Absent => arity == NoArgument || arity == Optional
          case Joined(v) => (arity == Required || arity == Optional) && v != ""
          case Apart(v) => arity == Required)
    case Long(index, typed, arg) =>
      && cfg.longopts.Some? && index < |cfg.longopts.value|
      && (var o := cfg.longopts.value[index];
          && typed != "" && '=' !in typed
          && LookupLong(cfg.longopts.value, typed, cfg.longOnly) == Found(index)
          && (match arg
              case Absent => o.hasArg != 1
              case Joined(v) => o.hasArg != 0
              case Apart(v) => o.hasArg == 1))
    case Operand(elem) => elem == "" || elem == "-" || elem[0] != '-'
  }

  function Tail(arg: Argument): seq<string> {
    if arg.Apart? then [arg.value] else []
  }

  function Render(item: Item): seq<string> {
    match item
    case Short(flags, last, arg) => ["-" + flags + [last] + (if arg.Joined? then arg.value else "")] + Tail(arg)
    case Long(index, typed, arg) => ["--" + typed + (if arg.Joined? then "=" + arg.value else "")] + Tail(arg)
    case Operand(elem) => [elem]
  }

  /** A letter, and its argument, as the caller is told of them. */
  function Letter(c: char, arg: Option<string>): Event {
    Event(c as int, arg, None, None, None)
  }

  /** A long option: its value is returned, or stored where its flag points. */
  function LongName(o: LongOption, index: nat, arg: Option<string>): Event {
    match o.flag
    case None => Event(o.val, arg, None, Some(index), None)
    case Some(f) => Event(0, arg, None, Some(index), Some((f, o.val)))
  }

  function FlagEvents(flags: string): seq<Event> {
    if flags == "" then [] else [Letter(flags[0], None)] + FlagEvents(flags[1..])
  }

  /** What an option item says. */
  ghost function Meaning(cfg: Config, item: Item): seq<Event>
    requires Writable(cfg, item)
  {
    match item
    case Short(flags, last, arg) => FlagEvents(flags) + [Letter(last, arg.Get())]
    case Long(index, typed, arg) => [LongName(cfg.longopts.value[index], index, arg.Get())]
    case Operand(elem) => []
  }

  /** A whole line: items, then possibly "--" and elements of any form. */
  function RenderAll(items: seq<Item>, end: Option<seq<string>>): seq<string> {
    if items == [] then (if end.Some? then ["--"] + end.value else [])
    else Render(items[0]) + RenderAll(items[1..], end)
  }

  ghost predicate AllWritable(cfg: Config, items: seq<Item>) {
    forall k :: 0 <= k < |items| ==> Writable(cfg, items[k])
  }

  /** What a line says: to a permuting program its options; to a standard one the
      options before the first operand; in order, the operands as well, each as the
      argument of an option with the code 1. */
  ghost function MeaningAll(mode: Ordering, cfg: Config, items: seq<Item>): seq<Event>
    requires AllWritable(cfg, items)
  {
    if items == [] then []
    else if items[0].Operand? then
      match mode
      case Permute => MeaningAll(mode, cfg, items[1..])
      case RequireOrder => []
      case ReturnInOrder => [Plain(1, Some(items[0].elem))] + MeaningAll(mode, cfg, items[1..])
    else Meaning(cfg, items[0]) + MeaningAll(mode, cfg, items[1..])
  }

  /** What the line leaves to the program itself. */
  function OperandsOf(mode: Ordering, items: seq<Item>, end: Option<seq<string>>): seq<string> {
    if items == [] then (if end.Some? then end.value else [])
    else if items[0].Operand? then
      match mode
      case Permute => [items[0].elem] + OperandsOf(mode, items[1..], end)
      case RequireOrder => RenderAll(items, end)
      case ReturnInOrder => OperandsOf(mode, items[1..], end)
    else OperandsOf(mode, items[1..], end)
  }

  // ---------- what a line says, without the reading's orderings ----------

  /** What the items say that are options ... */
  ghost function OptionEvents(cfg: Config, items: seq<Item>): seq<Event>
    requires AllWritable(cfg, items)
  {
    if items == [] then [] else Meaning(cfg, items[0]) + OptionEvents(cfg, items[1..])
  }

  /** ... the others ... */
  function OperandElems(items: seq<Item>): seq<string> {
    if items == [] then []
    else (if items[0].Operand? then [items[0].elem] else []) + OperandElems(items[1..])
  }

  /** ... and all of them in their order, an operand being the argument of option 1. */
  ghost function EventsInOrder(cfg: Config, items: seq<Item>): seq<Event>
    requires AllWritable(cfg, items)
  {
    if items == [] then []
    else
      (if items[0].Operand? then [Event(1, Some(items[0].elem), None, None, None)] else Meaning(cfg, items[0]))
      + EventsInOrder(cfg, items[1..])
  }

  function Ending(end: Option<seq<string>>): seq<string> {
    if end.Some? then end.value else []
  }

  /** The first operand is the item `k`, or there is none. */
  ghost predicate FirstOperand(items: seq<Item>, k: nat) {
    && k <= |items| && (k < |items| ==> items[k].Operand?)
    && forall j :: 0 <= j < k ==> !items[j].Operand?
  }

  lemma {:induction false} MeaningPermuted(cfg: Config, items: seq<Item>, end: Option<seq<string>>)
    requires AllWritable(cfg, items)
    ensures MeaningAll(Permute, cfg, items) == OptionEvents(cfg, items)
    ensures OperandsOf(Permute, items, end) == OperandElems(items) + Ending(end)
  {
    hide Writable;
    if items != [] {
      MeaningPermuted(cfg, items[1..], end);
    }
  }

  lemma {:induction false} MeaningUpToOperand(cfg: Config, items: seq<Item>, end: Option<seq<string>>, k: nat)
    requires AllWritable(cfg, items) && FirstOperand(items, k)
    ensures k <= |items| && AllWritable(cfg, items[..k])
    ensures MeaningAll(RequireOrder, cfg, items) == OptionEvents(cfg, items[..k])
    ensures OperandsOf(RequireOrder, items, end) == if k < |items| then RenderAll(items[k..], end) else Ending(end)
  {
    hide Writable;
    if k > 0 {
      MeaningUpToOperand(cfg, items[1..], end, k - 1);
      assert items[..k][0] == items[0] && items[..k][1..] == items[1..][..k - 1];
    }
  }

  lemma {:induction false} MeaningInOrder(cfg: Config, items: seq<Item>, end: Option<seq<string>>)
    requires AllWritable(cfg, items)
    ensures MeaningAll(ReturnInOrder, cfg, items) == EventsInOrder(cfg, items)
    ensures OperandsOf(ReturnInOrder, items, end) == Ending(end)
  {
    hide Writable;
    if items != [] {
      MeaningInOrder(cfg, items[1..], end);
    }
  }

  /** Two configurations of one program: of the call to come and of those after it. */
  ghost predicate Paired(now: Config, later: Config) {
    now.longopts == later.longopts && now.longOnly == later.longOnly && (now.longopts.None? || !now.longOnly)
  }

  ghost predicate Usable(now: Config, later: Config, item: Item) {
    Paired(now, later) && Writable(now, item) && Writable(later, item)
  }

  /** `args` reads as the events `events` and then as `more`. */
  ghost predicate ReadsAs(mode: Ordering, now: Config, later: Config, text: string, args: seq<string>,
                          events: seq<Event>, more: seq<string>)
    requires text != "" ==> args != []
  {
    var p, q := Parse(mode, now, later, text, args), Parse(mode, later, later, "", more);
    p.events == events + q.events && p.operands == q.operands && p.starved == q.starved && p.dashed == q.dashed
  }

  /** One option in front of what has been read. */
  lemma ReadOn(mode: Ordering, now: Config, later: Config, text: string, args: seq<string>, s: Step,
               events: seq<Event>, more: seq<string>)
    requires text != "" && args != [] && s == Decode(now, args[0], text, args[1..]) && !s.starved
    requires ReadsAs(mode, later, later, s.rest, args[s.used..], events, more)
    ensures ReadsAs(mode, now, later, text, args, [s.event] + events, more)
  {
    hide Decode, Parse;
    ParseContinues(mode, now, later, text, args);
    var p := Parse(mode, now, later, text, args);
    assert p.events == [p.events[0]] + p.events[1..];
  }

  lemma DecodeFlag(cfg: Config, elem: string, text: string, tail: seq<string>)
    requires |text| > 1 && ArityOf(cfg.optstring, text[0]) == NoArgument && !TriesLong(cfg, elem)
    ensures Decode(cfg, elem, text, tail) == Step(Plain(text[0] as int, None), text[1..], 0, false)
  {
  }

  /** The last letter of a group, with its argument if it takes one. */
  lemma DecodeLast(cfg: Config, item: Item, elem: string, text: string, more: seq<string>)
    requires item.Short? && Writable(cfg, item) && !TriesLong(cfg, elem)
    requires text == [item.last] + (if item.arg.Joined? then item.arg.value else "")
    ensures Decode(cfg, elem, text, Tail(item.arg) + more)
         == Step(Plain(item.last as int, item.arg.Get()), "", 1 + |Tail(item.arg)|, false)
  {
  }

  lemma DecodeName(cfg: Config, item: Item, elem: string, text: string, more: seq<string>)
    requires item.Long? && Writable(cfg, item) && TriesLong(cfg, elem)
    requires text == item.typed + (if item.arg.Joined? then "=" + item.arg.value else "")
    ensures Decode(cfg, elem, text, Tail(item.arg) + more)
         == Step(LongFound(cfg.longopts.value[item.index], item.index, item.arg.Get()), "", 1 + |Tail(item.arg)|, false)
  {
    var o := cfg.longopts.value[item.index];
    hide LookupLong, NameOf, TriesLong;
    NameIsRead(item.typed, if item.arg.Joined? then "=" + item.arg.value else "");
  }

  lemma NameIsRead(name: string, suffix: string)
    requires '=' !in name && (suffix == "" || suffix[0] == '=')
    ensures NameOf(name + suffix) == name
    ensures suffix != "" ==> (name + suffix)[|name| + 1..] == suffix[1..]
  {
    var text := name + suffix;
    assert forall k :: 0 <= k < |name| ==> text[k] == name[k];
    if suffix == "" {
      assert text == name;
    } else {
      assert text[|name|] == '=';
      var i := FirstIndex(text, '=').value;
      assert i <= |name|;
    }
  }

  /** Reading the rest of a group of short options. */
  lemma {:induction false} ReadGroup(mode: Ordering, now: Config, later: Config, item: Item, elem: string, text: string,
                                     done: nat, more: seq<string>)
    requires item.Short? && Usable(now, later, item) && done <= |item.flags|
    requires !TriesLong(now, elem) && !TriesLong(later, elem)
    requires text == item.flags[done..] + [item.last] + (if item.arg.Joined? then item.arg.value else "")
    ensures ReadsAs(mode, now, later, text, [elem] + Tail(item.arg) + more,
                    FlagEvents(item.flags[done..]) + [Letter(item.last, item.arg.Get())], more)
    decreases |item.flags| - done
  {
    hide ReadsAs, Decode, ArityOf, TriesLong;
    var args := [elem] + Tail(item.arg) + more;
    var joined := if item.arg.Joined? then item.arg.value else "";
    var last := [Letter(item.last, item.arg.Get())];
    assert args[1..] == Tail(item.arg) + more;
    if done < |item.flags| {
      assert text[0] == item.flags[done] && item.flags[done] in item.flags;
      assert text[1..] == item.flags[done + 1..] + [item.last] + joined;
      DecodeFlag(now, elem, text, args[1..]);
      ReadGroup(mode, later, later, item, elem, text[1..], done + 1, more);
      assert args[0..] == args;
      var others := FlagEvents(item.flags[done + 1..]) + last;
      ReadOn(mode, now, later, text, args, Decode(now, elem, text, args[1..]), others, more);
      assert item.flags[done..][1..] == item.flags[done + 1..];
      assert FlagEvents(item.flags[done..]) + last == [Plain(text[0] as int, None)] + others;
    } else {
      assert text == [item.last] + joined;
      DecodeLast(now, item, elem, text, more);
      assert args[1 + |Tail(item.arg)|..] == more;
      NothingRead(mode, later, more);
      ReadOn(mode, now, later, text, args, Decode(now, elem, text, args[1..]), [], more);
      assert FlagEvents(item.flags[done..]) + last == last + [];
    }
  }

  lemma NothingRead(mode: Ordering, cfg: Config, more: seq<string>)
    ensures ReadsAs(mode, cfg, cfg, "", more, [], more)
  {
  }

  lemma AtElement(mode: Ordering, now: Config, later: Config, args: seq<string>)
    requires args != [] && !NonOption(args[0]) && args[0] != "--"
    ensures Parse(mode, now, later, "", args) == Parse(mode, now, later, OptionText(now, args[0]), args)
  {
  }

  /** What is read of the first element of a written option. */
  lemma OptionElement(cfg: Config, item: Item)
    requires !item.Operand? && Writable(cfg, item)
    ensures var elem := Render(item)[0];
            && Render(item) == [elem] + Tail(item.arg)
            && !NonOption(elem) && elem != "--"
            && OptionText(cfg, elem)
               == if item.Long? then item.typed + (if item.arg.Joined? then "=" + item.arg.value else "")
                  else item.flags[0..] + [item.last] + (if item.arg.Joined? then item.arg.value else "")
    ensures Paired(cfg, cfg) ==> TriesLong(cfg, Render(item)[0]) == item.Long?
  {
    hide ArityOf, LookupLong;
    var elem := Render(item)[0];
    if item.Short? {
      assert elem[1] == (item.flags + [item.last])[0];
      assert item.flags != "" ==> elem[2] == (item.flags + [item.last])[1];
      assert elem[1..] == item.flags[0..] + [item.last] + (if item.arg.Joined? then item.arg.value else "");
    } else {
      assert elem[2..] == item.typed + (if item.arg.Joined? then "=" + item.arg.value else "");
    }
  }

  lemma ReadOption(mode: Ordering, now: Config, later: Config, item: Item, more: seq<string>)
    requires !item.Operand? && Usable(now, later, item)
    ensures ReadsAs(mode, now, later, "", Render(item) + more, Meaning(later, item), more)
  {
    var args := Render(item) + more;
    OptionElement(now, item);
    OptionElement(later, item);
    hide Parse, Render, Writable, OptionText, NonOption, TriesLong, Meaning;
    var elem := args[0];
    assert args == [elem] + Tail(item.arg) + more;
    AtElement(mode, now, later, args);
    if item.Long? {
      ReadLong(mode, now, later, item, elem, OptionText(now, elem), more);
    } else {
      ReadGroup(mode, now, later, item, elem, OptionText(now, elem), 0, more);
      assert item.flags[0..] == item.flags;
      assert Meaning(later, item) == FlagEvents(item.flags) + [Letter(item.last, item.arg.Get())];
    }
  }

  lemma ReadLong(mode: Ordering, now: Config, later: Config, item: Item, elem: string, text: string, more: seq<string>)
    requires item.Long? && Usable(now, later, item) && TriesLong(now, elem)
    requires text == item.typed + (if item.arg.Joined? then "=" + item.arg.value else "")
    ensures ReadsAs(mode, now, later, text, [elem] + Tail(item.arg) + more, Meaning(later, item), more)
  {
    hide Parse, TriesLong, LookupLong;
    var args := [elem] + Tail(item.arg) + more;
    assert args[1..] == Tail(item.arg) + more && args[1 + |Tail(item.arg)|..] == more;
    DecodeName(now, item, elem, text, more);
    NothingRead(mode, later, more);
    ReadOn(mode, now, later, text, args, Decode(now, elem, text, args[1..]), [], more);
    assert Meaning(later, item) + [] == Meaning(later, item);
  }

  /** The round trip, for every list of intended items and every ending, in each of
      the three orderings.  In order, only a "--" leaves anything to the program. */
  lemma {:induction false} ReadBack(mode: Ordering, now: Config, later: Config, items: seq<Item>,
                                    end: Option<seq<string>>)
    requires Paired(now, later) && AllWritable(now, items) && AllWritable(later, items)
    ensures var p := Parse(mode, now, later, "", RenderAll(items, end));
            && p.events == MeaningAll(mode, later, items) && p.operands == OperandsOf(mode, items, end) && !p.starved
            && (mode != RequireOrder ==> p.dashed == end.Some?)
    decreases |items|
  {
    if items != [] {
      var item, rest := items[0], items[1..];
      var more := RenderAll(rest, end);
      var now' := if item.Operand? && mode == Permute then now else later;
      ReadBack(mode, now', later, rest, end);
      assert RenderAll(items, end) == Render(item) + more && Writable(now, item) && Writable(later, item);
      if item.Operand? {
        assert Render(item) + more == [item.elem] + more && ([item.elem] + more)[1..] == more;
      } else {
        hide Meaning, Writable, Parse;
        ReadOption(mode, now, later, item, more);
      }
    }
  }
}
