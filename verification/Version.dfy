/**
  Reading "OpenCL <major>.<minor> ..." and what it decides: whether devices of the
  platform are reference counted (cl.hpp).
 */
module Version {
  import opened HandleCounts

  const WORD := 0x1_0000_0000

  // ---------- C's arithmetic ----------

  /** The bitwise or of two numbers. */
  function BitOr(a: nat, b: nat): nat {
    if a == 0 && b == 0 then 0
    else 2 * BitOr(a / 2, b / 2) + if a % 2 == 1 || b % 2 == 1 then 1 else 0
  }

  function Power2(k: nat): nat {
    if k == 0 then 1 else 2 * Power2(k - 1)
  }

  /** Or is addition where the bits are disjoint. */
  lemma {:induction false} BitOrShifted(a: nat, b: nat, k: nat)
    requires b < Power2(k)
    ensures BitOr(a * Power2(k), b) == a * Power2(k) + b
    decreases k, a
  {
    if k == 0 {
      BitOrZero(a);
    } else {
      var x := a * Power2(k - 1);
      assert a * Power2(k) == 2 * x;
      BitOrShifted(a, b / 2, k - 1);
      assert (2 * x) / 2 == x && (2 * x) % 2 == 0;
    }
  }

  lemma {:induction false} BitOrZero(a: nat)
    ensures BitOr(a, 0) == a
  {
    if a != 0 {
      BitOrZero(a / 2);
    }
  }

  predicate BitAt(a: nat, k: nat) {
    if k == 0 then a % 2 == 1 else BitAt(a / 2, k - 1)
  }

  lemma {:induction false} BitOrBits(a: nat, b: nat, k: nat)
    ensures BitAt(BitOr(a, b), k) <==> BitAt(a, k) || BitAt(b, k)
  {
    hide BitOr;
    BitOrStep(a, b);
    if k > 0 {
      BitOrBits(a / 2, b / 2, k - 1);
    }
  }

  lemma BitOrStep(a: nat, b: nat)
    ensures BitOr(a, b) / 2 == BitOr(a / 2, b / 2)
    ensures BitOr(a, b) % 2 == 1 <==> a % 2 == 1 || b % 2 == 1
  {
  }

  lemma {:induction false} BitOrFits(a: nat, b: nat, n: nat)
    requires a < Power2(n) && b < Power2(n)
    ensures BitOr(a, b) < Power2(n)
  {
    if n > 0 {
      BitOrFits(a / 2, b / 2, n - 1);
    }
  }

  lemma {:induction false} BitAtShifted(x: nat, n: nat, k: nat)
    ensures BitAt(x * Power2(n), k) <==> k >= n && BitAt(x, k - n)
  {
    if n > 0 {
      var y := x * Power2(n - 1);
      assert x * Power2(n) == 2 * y;
      if k > 0 {
        assert (2 * y) / 2 == y;
        BitAtShifted(x, n - 1, k - 1);
      }
    }
  }

  /** A 32-bit value read as a signed int. */
  function Signed(word: int): int {
    if word < WORD / 2 then word else word - WORD
  }

  // ---------- reading ----------

  /** The accumulation over the characters, as unbounded integers. */
  function Value(digits: string): int {
    if digits == "" then 0 else Value(digits[..|digits| - 1]) * 10 + (digits[|digits| - 1] as int - '0' as int)
  }

  lemma ValueOfOneMore(info: string, from: nat, index: nat)
    requires from <= index < |info|
    ensures Value(info[from..index + 1]) == Value(info[from..index]) * 10 + (info[index] as int - '0' as int)
  {
    assert info[from..index + 1][..index - from] == info[from..index];
  }

  lemma ValueOfNone(info: string, from: nat)
    requires from <= |info|
    ensures Value(info[from..from]) == 0
  {
  }

  /** (high << 16) | low in 32 bits. */
  function Pack(high: int, low: int): nat {
    BitOr((high * 65536) % WORD, low % WORD) % WORD
  }

  /** All 32 bits of the answer, whatever was accumulated: a minor number that does not
      fit in 16 bits is or-ed into the major one, and what does not fit at all is lost. */
  lemma PackBits(high: int, low: int, k: nat)
    requires k < 32
    ensures Pack(high, low) < WORD
    ensures BitAt(Pack(high, low), k) <==> BitAt(low % WORD, k) || (k >= 16 && BitAt(high % 65536, k - 16))
  {
    hide BitOr, BitAt, Power2;
    Power2Of16();
    Power2Of32();
    HighWord(high);
    BitAtShifted(high % 65536, 16, k);
    BitOrFits((high * 65536) % WORD, low % WORD, 32);
    BitOrBits((high * 65536) % WORD, low % WORD, k);
  }

  lemma HighWord(high: int)
    ensures (high * 65536) % WORD == (high % 65536) * 65536
  {
    var q := high / 65536;
    assert high * 65536 == q * WORD + (high % 65536) * 65536;
  }

  lemma Power2Of32()
    ensures Power2(32) == WORD
  {
    Power2Of16();
    assert Power2(20) == 16 * Power2(16);
    assert Power2(24) == 16 * Power2(20);
    assert Power2(28) == 16 * Power2(24);
  }

  /** The version text runs from index 7 to the first '.', then to the first ' '. */
  ghost predicate Parts(info: string, dot: nat, space: nat) {
    && 7 <= dot < space < |info| && info[dot] == '.' && info[space] == ' '
    && (forall k :: 7 <= k < dot ==> info[k] != '.')
    && (forall k :: dot < k < space ==> info[k] != ' ')
  }

  /** getVersion.  It scans for its two terminators without looking for the end. */
  method GetVersion(versionInfo: string) returns (version: nat)
    requires exists dot: nat, space: nat :: Parts(versionInfo, dot, space)
    ensures forall dot: nat, space: nat :: Parts(versionInfo, dot, space) ==>
              version == Pack(Value(versionInfo[7..dot]), Value(versionInfo[dot + 1..space]))
    ensures forall major: nat, minor: nat, tail :: versionInfo == Printed(major, minor, tail) ==>
              major < 65536 && minor < 65536 ==> version == major * 65536 + minor
  {
    hide Value, Pack, Printed;
    ghost var dot: nat, space: nat :| Parts(versionInfo, dot, space);
    ValueOfNone(versionInfo, 7);
    ValueOfNone(versionInfo, dot + 1);
    PartsUnique(versionInfo, dot, space);
    var highVersion, lowVersion, index := 0, 0, 7;
    while versionInfo[index] != '.'
      invariant 7 <= index <= dot && highVersion == Value(versionInfo[7..index])
      decreases dot - index
    {
      ValueOfOneMore(versionInfo, 7, index);
      highVersion := highVersion * 10;
      highVersion := highVersion + (versionInfo[index] as int - '0' as int);
      index := index + 1;
    }
    index := index + 1;
    while versionInfo[index] != ' '
      invariant dot + 1 <= index <= space && lowVersion == Value(versionInfo[dot + 1..index])
      decreases space - index
    {
      ValueOfOneMore(versionInfo, dot + 1, index);
      lowVersion := lowVersion * 10;
      lowVersion := lowVersion + (versionInfo[index] as int - '0' as int);
      index := index + 1;
    }
    version := Pack(highVersion, lowVersion);
    forall major: nat, minor: nat, tail | versionInfo == Printed(major, minor, tail) && major < 65536 && minor < 65536
      ensures version == major * 65536 + minor
    {
      PrintedParts(major, minor, tail);
      PackFaithful(major, minor);
    }
  }

  lemma PartsUnique(info: string, dot: nat, space: nat)
    requires Parts(info, dot, space)
    ensures forall d: nat, s: nat :: Parts(info, d, s) ==> d == dot && s == space
  {
  }

  // ---------- printing ----------

  function Decimal(n: nat): string {
    if n < 10 then [('0' as int + n) as char] else Decimal(n / 10) + [('0' as int + n % 10) as char]
  }

  function Printed(major: nat, minor: nat, tail: string): string {
    "OpenCL " + Decimal(major) + "." + Decimal(minor) + " " + tail
  }

  lemma {:induction false} ValueOfDecimal(n: nat)
    ensures Value(Decimal(n)) == n
    ensures forall c :: c in Decimal(n) ==> '0' <= c <= '9'
  {
    if n >= 10 {
      ValueOfDecimal(n / 10);
      var d := Decimal(n);
      assert d[..|d| - 1] == Decimal(n / 10);
    } else {
      assert Decimal(n)[..0] == "";
    }
  }

  lemma JoinedParts(x: string, y: string, tail: string)
    requires '.' !in x && ' ' !in y
    ensures var info, dot := "OpenCL " + x + "." + y + " " + tail, 7 + |x|;
            var space := dot + 1 + |y|;
            Parts(info, dot, space) && info[7..dot] == x && info[dot + 1..space] == y
  {
  }

  /** Every printed version can be read, and its two numbers are found. */
  lemma PrintedParts(major: nat, minor: nat, tail: string)
    ensures var info, dot := Printed(major, minor, tail), 7 + |Decimal(major)|;
            var space := dot + 1 + |Decimal(minor)|;
            && Parts(info, dot, space)
            && Value(info[7..dot]) == major && Value(info[dot + 1..space]) == minor
  {
    hide Decimal, Value, Parts;
    ValueOfDecimal(major);
    ValueOfDecimal(minor);
    JoinedParts(Decimal(major), Decimal(minor), tail);
  }

  lemma Power2Of16()
    ensures Power2(16) == 65536
  {
    assert Power2(4) == 16;
    assert Power2(8) == 256;
    assert Power2(12) == 4096;
  }

  /** Reading undoes printing -- for exactly the versions that fit in two 16-bit halves. */
  lemma PackFaithful(major: nat, minor: nat)
    ensures (Pack(major, minor) / 65536 == major && Pack(major, minor) % 65536 == minor)
            <==> (major < 65536 && minor < 65536)
    ensures major < 65536 && minor < 65536 ==> Pack(major, minor) == major * 65536 + minor
  {
    hide BitOr, Power2;
    if major < 65536 && minor < 65536 {
      Power2Of16();
      BitOrShifted(major, minor, 16);
      assert (major * 65536) % WORD == major * 65536 && minor % WORD == minor;
    }
  }

  /** isReferenceCountable's comparison, on the version read as an int. */
  predicate Countable(version: nat) {
    Signed(version) > 65536 + 1
  }

  /** It is the lexicographic "later than 1.1", until the major version reaches the sign bit. */
  lemma CountableIsLater(major: nat, minor: nat)
    requires major < 65536 && minor < 65536
    ensures Countable(Pack(major, minor)) <==> major < 32768 && (major > 1 || (major == 1 && minor > 1))
  {
    PackFaithful(major, minor);
  }

  /** Wrapper<cl_device_id>: whether a device counts depends on its platform's text. */
  ghost function DeviceKind(info: nat -> string): Kind {
    Kind((h: nat) => exists dot: nat, space: nat ::
      Parts(info(h), dot, space) && Countable(Pack(Value(info(h)[7..dot]), Value(info(h)[dot + 1..space]))))
  }

  /** After any legal program, a device wrapper's flag is the version test on the
      device that it holds now. */
  lemma DeviceFlags(info: nat -> string, ops: seq<Op>, i: nat, major: nat, minor: nat, tail: string)
    requires LegalProgram(DeviceKind(info), EMPTY_WORLD, ops)
    requires major < 65536 && minor < 65536
    ensures var w := Execute(DeviceKind(info), EMPTY_WORLD, ops);
            i < |w.objects| && w.objects[i] != NULL && info(w.objects[i]) == Printed(major, minor, tail) ==>
              i < |w.flags| && w.flags[i] == (major < 32768 && (major > 1 || (major == 1 && minor > 1)))
  {
    hide Decimal, Value, Pack, Parts, Countable, Execute, LegalProgram;
    Conservation(DeviceKind(info), EMPTY_WORLD, ops);
    var w := Execute(DeviceKind(info), EMPTY_WORLD, ops);
    if i < |w.objects| && w.objects[i] != NULL && info(w.objects[i]) == Printed(major, minor, tail) {
      PrintedParts(major, minor, tail);
      var dot := 7 + |Decimal(major)|;
      PartsUnique(Printed(major, minor, tail), dot, dot + 1 + |Decimal(minor)|);
      CountableIsLater(major, minor);
    }
  }
}
