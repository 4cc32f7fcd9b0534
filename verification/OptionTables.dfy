/** The loops of getopt.c that search the option string and the long option table. */
module OptionTables {
  import opened Options
  import opened CommandLine

  /** my_index: the position of `chr` in `str`, or None for the NULL it returns. */
  method MyIndex(str: string, chr: char) returns (r: Option<nat>)
    ensures r == FirstIndex(str, chr)
  {
    var i := 0;
    while i < |str|
      invariant i <= |str| && chr !in str[..i]
    {
      if str[i] == chr { return Some(i); }
      i := i + 1;
    }
    return None;
  }

  /** The end of the option name in `text`: the first '=' or the end. */
  method NameEnd(text: string) returns (n: nat)
    ensures n <= |text| && text[..n] == NameOf(text)
  {
    n := 0;
    while n < |text| && text[n] != '='
      invariant n <= |text| && '=' !in text[..n]
    {
      n := n + 1;
    }
  }

  /** The search of the long option table. */
  method SearchLong(longopts: seq<LongOption>, name: string, longOnly: bool)
    returns (pfound: Option<nat>, exact: bool, ambig: bool)
    ensures LookupLong(longopts, name, longOnly)
         == if ambig && !exact then Ambiguous else if pfound.Some? then Found(pfound.value) else NotFound
    ensures pfound.Some? ==> pfound.value < |longopts|
  {
    hide FirstMatch;
    pfound, exact, ambig := None, false, false;
    ghost var first := FirstMatch(longopts, name, false);
    var p := 0;
    while p < |longopts|
      invariant p <= |longopts| && !exact
      invariant p <= FirstMatch(longopts, name, true)
      invariant pfound == if first < p then Some(first) else None
      invariant ambig <==> exists j :: && first < j < p && PrefixMatch(longopts[j], name)
                                       && Clash(longopts[first], longopts[j], longOnly)
    {
      var o := longopts[p];
      if name <= o.name {
        if |name| == |o.name| {
          assert name == o.name[..|name|] == o.name;
          assert ExactMatch(o, name);
          pfound, exact := Some(p), true;
          return;
        } else if pfound.None? {
          pfound := Some(p);
        } else {
          var q := longopts[pfound.value];
          if longOnly || q.hasArg != o.hasArg || q.flag != o.flag || q.val != o.val {
            ambig := true;
          }
        }
      }
      p := p + 1;
    }
  }
}
