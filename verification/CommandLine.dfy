/**
  What a command line means: a pure left-to-right reading of argv, with no
  permuting and no resuming.  The scanner in Getopt.dfy is proved to refine it.

  A C string is a `string` and its end is the end of the string, so "the text
  from nextchar on" is a string and NULL and "at the terminator" are both "".
 */
module CommandLine {
  import opened Options

  /** A `struct option`; `flag` is the address to store `val` at, if any. */
  datatype LongOption = LongOption(name: string, hasArg: int, flag: Option<nat>, val: int)

  /** An option string without the "-W foo means --foo" form, which is not modelled. */
  type OptString = s: string | NoLongW(s) witness ""

  datatype Config = Config(optstring: OptString, longopts: Option<seq<LongOption>>, longOnly: bool)

  datatype Ordering = RequireOrder | Permute | ReturnInOrder

  /** One call's outcome: the returned value, optarg, the value stored in optopt
      (if any), the index of the long option found and the store through its flag. */
  datatype Event = Event(ret: int, arg: Option<string>, optopt: Option<int>,
                         longind: Option<nat>, store: Option<(nat, int)>)

  /** Decoding one option: the event, the text left in the element, and how many
      elements were passed. `starved` marks an option whose argument is missing. */
  datatype Step = Step(event: Event, rest: string, used: nat, starved: bool)

  datatype Lookup = NotFound | Ambiguous | Found(index: nat)

  datatype Arity = Unknown | NoArgument | Required | Optional

  // ---------- the option string ----------

  function FirstIndex(s: string, c: char): (r: Option<nat>)
    ensures r.None? <==> c !in s
    ensures r.Some? ==> r.value < |s| && s[r.value] == c && c !in s[..r.value]
  {
    if s == "" then None
    else if s[0] == c then Some(0)
    else
      match FirstIndex(s[1..], c)
      case None => None
      case Some(i) =>
        assert s[..i + 1] == [s[0]] + s[1..][..i];
        Some(i + 1)
  }

  predicate CharAt(s: string, i: nat, c: char) {
    i < |s| && s[i] == c
  }

  function ArityOf(optstring: string, c: char): Arity {
    match FirstIndex(optstring, c)
    case None => Unknown
    case Some(i) =>
      if c == ':' then Unknown
      else if !CharAt(optstring, i + 1, ':') then NoArgument
      else if CharAt(optstring, i + 2, ':') then Optional
      else Required
  }

  /** The optstring does not ask for the "-W foo means --foo" convenience. */
  predicate NoLongW(optstring: string) {
    match FirstIndex(optstring, 'W')
    case None => true
    case Some(i) => !CharAt(optstring, i + 1, ';')
  }

  function Stripped(optstring: OptString): OptString {
    if CharAt(optstring, 0, '-') || CharAt(optstring, 0, '+') then optstring[1..] else optstring
  }

  function ModeOf(optstring: string, posixlyCorrect: bool): Ordering {
    if CharAt(optstring, 0, '-') then ReturnInOrder
    else if CharAt(optstring, 0, '+') then RequireOrder
    else if posixlyCorrect then RequireOrder
    else Permute
  }

  /** The answer for a missing argument: ':' if the option string starts with one. */
  function MissingRet(optstring: string): int {
    (if CharAt(optstring, 0, ':') then ':' else '?') as int
  }

  // ---------- long option names ----------

  predicate PrefixMatch(o: LongOption, typed: string) {
    typed <= o.name
  }

  predicate ExactMatch(o: LongOption, typed: string) {
    typed == o.name
  }

  predicate Clash(a: LongOption, b: LongOption, longOnly: bool) {
    longOnly || a.hasArg != b.hasArg || a.flag != b.flag || a.val != b.val
  }

  /** The first option that `typed` matches, exactly or as a prefix; the length if none. */
  function FirstMatch(opts: seq<LongOption>, typed: string, exact: bool): (r: nat)
    ensures r <= |opts|
    ensures forall i :: 0 <= i < r ==>
              if exact then !ExactMatch(opts[i], typed) else !PrefixMatch(opts[i], typed)
    ensures r < |opts| ==> if exact then ExactMatch(opts[r], typed) else PrefixMatch(opts[r], typed)
  {
    if opts == [] || (if exact then ExactMatch(opts[0], typed) else PrefixMatch(opts[0], typed)) then 0
    else 1 + FirstMatch(opts[1..], typed, exact)
  }

  /** Exact matches win; failing that, the first abbreviated one, unless a later
      abbreviated one clashes with it. */
  function LookupLong(opts: seq<LongOption>, typed: string, longOnly: bool): Lookup {
    var e, p := FirstMatch(opts, typed, true), FirstMatch(opts, typed, false);
    if e < |opts| then Found(e)
    else if p == |opts| then NotFound
    else if exists j :: p < j < |opts| && PrefixMatch(opts[j], typed) && Clash(opts[p], opts[j], longOnly)
    then Ambiguous
    else Found(p)
  }

  /** The promise of getopt's long-name matching, without reference to table order
      except where two candidates are interchangeable. */
  lemma LookupLongMeaning(opts: seq<LongOption>, typed: string, longOnly: bool)
    ensures var r := LookupLong(opts, typed, longOnly);
            var exact := exists i :: 0 <= i < |opts| && opts[i].name == typed;
            && (r.NotFound? <==> forall i :: 0 <= i < |opts| ==> !(typed <= opts[i].name))
            && (r.Ambiguous? <==>
                !exact && exists i, j :: && 0 <= i < j < |opts| && typed <= opts[i].name && typed <= opts[j].name
                                         && (longOnly || Meant(opts[i]) != Meant(opts[j])))
            && (r.Found? ==>
                && r.index < |opts| && typed <= opts[r.index].name
                && (exact ==> opts[r.index].name == typed
                              && forall i :: 0 <= i < r.index ==> opts[i].name != typed)
                && (!exact ==> forall i :: 0 <= i < |opts| && typed <= opts[i].name && i != r.index ==>
                                 r.index < i && !longOnly && Meant(opts[r.index]) == Meant(opts[i])))
  {
  }

  /** What tells two candidates apart: everything but the name. */
  function Meant(o: LongOption): (int, Option<nat>, int) {
    (o.hasArg, o.flag, o.val)
  }

  // ---------- one option ----------

  function Plain(ret: int, arg: Option<string>): Event {
    Event(ret, arg, None, None, None)
  }

  function Bad(ret: int, optopt: int): Event {
    Event(ret, None, Some(optopt), None, None)
  }

  /** One letter of a group "-abc", with `tail` the elements after the group. */
  function DecodeShort(optstring: OptString, text: string, tail: seq<string>): (s: Step)
    requires text != ""
    ensures s.used == 0 <==> s.rest != ""
    ensures s.rest != "" ==> s.rest == text[1..]
    ensures s.used <= 1 + |tail|
  {
    var c, rest := text[0], text[1..];
    var passed := if rest == "" then 1 else 0;
    match ArityOf(optstring, c)
    case Unknown => Step(Bad('?' as int, c as int), rest, passed, false)
    case NoArgument => Step(Plain(c as int, None), rest, passed, false)
    case Optional => Step(Plain(c as int, if rest == "" then None else Some(rest)), "", 1, false)
    case Required =>
      if rest != "" then Step(Plain(c as int, Some(rest)), "", 1, false)
      else if tail == [] then Step(Bad(MissingRet(optstring), c as int), "", 1, true)
      else Step(Plain(c as int, Some(tail[0])), "", 2, false)
  }

  /** The text before the first '='. */
  function NameOf(text: string): (name: string)
    ensures name <= text && '=' !in name
    ensures |name| < |text| ==> text[|name|] == '='
  {
    match FirstIndex(text, '=')
    case None => text
    case Some(i) => text[..i]
  }

  function LongFound(o: LongOption, index: nat, arg: Option<string>): Event {
    if o.flag.Some? then Event(0, arg, None, Some(index), Some((o.flag.value, o.val)))
    else Event(o.val, arg, None, Some(index), None)
  }

  /** A long option whose name is at `index` of the table. */
  function DecodeFound(cfg: Config, o: LongOption, index: nat, text: string, tail: seq<string>): (s: Step)
    ensures s.rest == "" && 1 <= s.used <= 1 + |tail|
  {
    var name := NameOf(text);
    if name != text then
      if o.hasArg != 0 then Step(LongFound(o, index, Some(text[|name| + 1..])), "", 1, false)
      else Step(Bad('?' as int, o.val), "", 1, false)
    else if o.hasArg == 1 then
      if tail != [] then Step(LongFound(o, index, Some(tail[0])), "", 2, false)
      else Step(Bad(MissingRet(cfg.optstring), o.val), "", 1, true)
    else Step(LongFound(o, index, None), "", 1, false)
  }

  /** Whether the element may be a long option at all. */
  predicate TriesLong(cfg: Config, elem: string) {
    && cfg.longopts.Some?
    && (CharAt(elem, 1, '-')
        || (cfg.longOnly && 1 < |elem| && (2 < |elem| || elem[1] !in cfg.optstring)))
  }

  /** A name that is in no table entry is read as short options only under
      long_only, after a single dash, when its first letter is one. */
  predicate FallsBack(cfg: Config, elem: string, text: string)
    requires text != ""
  {
    cfg.longOnly && !CharAt(elem, 1, '-') && text[0] in cfg.optstring
  }

  function Decode(cfg: Config, elem: string, text: string, tail: seq<string>): (s: Step)
    requires text != ""
    ensures s.used == 0 <==> s.rest != ""
    ensures s.rest != "" ==> s.rest == text[1..]
    ensures s.used <= 1 + |tail|
  {
    if !TriesLong(cfg, elem) then DecodeShort(cfg.optstring, text, tail)
    else
      match LookupLong(cfg.longopts.value, NameOf(text), cfg.longOnly)
      case Ambiguous => Step(Bad('?' as int, 0), "", 1, false)
      case Found(i) =>
        LookupLongMeaning(cfg.longopts.value, NameOf(text), cfg.longOnly);
        DecodeFound(cfg, cfg.longopts.value[i], i, text, tail)
      case NotFound =>
        if FallsBack(cfg, elem, text) then DecodeShort(cfg.optstring, text, tail)
        else Step(Bad('?' as int, 0), "", 1, false)
  }

  // ---------- the whole command line ----------

  predicate NonOption(elem: string) {
    !CharAt(elem, 0, '-') || elem == "-"
  }

  /** The option text of an element: after "-", or after "--" if there are long options. */
  function OptionText(cfg: Config, elem: string): (text: string)
    requires !NonOption(elem) && elem != "--"
    ensures text != "" && |text| < |elem|
  {
    if cfg.longopts.Some? && CharAt(elem, 1, '-') then elem[2..] else elem[1..]
  }

  /** What a command line says: the events, the elements that are options (or
      their separate arguments, or the "--"), and the operands. `dashed`: it was
      ended by "--"; `starved`: its last option lacks its argument. */
  datatype Parsed = Parsed(events: seq<Event>, options: seq<string>, operands: seq<string>,
                           dashed: bool, starved: bool)

  /** Read `args` from left to right, `text` being what is left of the element
      args[0] ("" to start with a fresh element). `first` is the configuration of
      the next call and `later` that of all calls after it. */
  function Parse(mode: Ordering, first: Config, later: Config, text: string, args: seq<string>): Parsed
    requires text != "" ==> args != []
    decreases |args|, if text == "" && args != [] then |args[0]| else |text|
  {
    if text != "" then Continue(mode, first, later, text, args)
    else if args == [] then Parsed([], [], [], false, false)
    else if args[0] == "--" then Parsed([], ["--"], args[1..], true, false)
    else if NonOption(args[0]) then
      match mode
      case Permute =>
        var p := Parse(mode, first, later, "", args[1..]);
        p.(operands := [args[0]] + p.operands)
      case RequireOrder => Parsed([], [], args, false, false)
      case ReturnInOrder =>
        var p := Parse(mode, later, later, "", args[1..]);
        p.(events := [Plain(1, Some(args[0]))] + p.events, options := [args[0]] + p.options)
    else Continue(mode, first, later, OptionText(first, args[0]), args)
  }

  function Continue(mode: Ordering, first: Config, later: Config, text: string, args: seq<string>): Parsed
    requires text != "" && args != []
    decreases |args|, |text|, 0
  {
    var s := Decode(first, args[0], text, args[1..]);
    var p := Parse(mode, later, later, s.rest, args[s.used..]);
    Parsed([s.event] + p.events, args[..s.used] + p.options, p.operands, p.dashed, s.starved || p.starved)
  }
}
