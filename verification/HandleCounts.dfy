/**
  Reference counts of OpenCL objects, and every sequence of operations on the
  wrappers that own them (cl.hpp).  Counting follows the retain and release calls
  of the OpenCL 1.2 specification (section 4.4 for contexts): an object is created
  with one reference and is gone when the last one is released.
 */
module HandleCounts {
  const NULL := 0

  /** The references to each live object; `bad` once a dead one was retained or released. */
  datatype Counts = Counts(refs: multiset<nat>, bad: bool)

  function Retained(c: Counts, h: nat): Counts {
    if h in c.refs then c.(refs := c.refs + multiset{h}) else c.(bad := true)
  }

  function Released(c: Counts, h: nat): Counts {
    if h in c.refs then c.(refs := c.refs - multiset{h}) else c.(bad := true)
  }

  /** `counted` says of a handle whether its wrappers count at all: of devices it
      depends on the platform's version, of every other object it is always so. */
  datatype Kind = Kind(counted: nat -> bool)

  /** What a wrapper does when it lets go of its object, given its flag. */
  function LetGo(c: Counts, h: nat, flag: bool): Counts {
    if h != NULL && flag then Released(c, h) else c
  }

  function TakeUp(c: Counts, h: nat, flag: bool): Counts {
    if h != NULL && flag then Retained(c, h) else c
  }

  function IsCounted(kind: Kind, h: nat): bool {
    h != NULL && kind.counted(h)
  }

  /** All wrappers there ever were (a destroyed one holds NULL) and the references
      that are in no wrapper: fresh from a create call, or kept inside the runtime. */
  datatype World = World(counts: Counts, objects: seq<nat>, flags: seq<bool>, loose: multiset<nat>)

  const EMPTY_WORLD := World(Counts(multiset{}, false), [], [], multiset{})

  datatype Op =
    | Create(h: nat)                        // the runtime makes an object and hands out a reference
    | KeepLoose(h: nat)                     // somebody outside the wrappers retains a live object
    | DropLoose(h: nat)                     // ... or releases a reference of theirs
    | Default                               // Wrapper()
    | Adopt(h: nat)                         // Wrapper(const cl_type&)
    | Copy(from: nat)                       // Wrapper(const Wrapper&)
    | Assign(to: nat, from: nat)            // the guarded operator= of the derived classes
    | AssignRaw(to: nat, h: nat)            // operator=(const cl_type&)
    | Destroy(at: nat)                      // ~Wrapper()
    | GetInfo(to: nat, h: nat)              // getInfoHelper: the runtime tells a handle it keeps
    | GetInfoAll(prior: seq<nat>, hs: seq<nat>)  // getInfoHelper for vectors, replacing the wrappers `prior`

  predicate Sized(w: World) {
    |w.objects| == |w.flags|
  }

  /** Wrapper::operator= before the guard against self-assignment is added. */
  function AssignUnguarded(w: World, to: nat, from: nat): (w': World)
    requires Sized(w) && to < |w.objects| && from < |w.objects|
    ensures Sized(w') && |w'.objects| == |w.objects|
  {
    var c := LetGo(w.counts, w.objects[to], w.flags[to]);
    w.(counts := TakeUp(c, w.objects[from], w.flags[from]),
       objects := w.objects[to := w.objects[from]], flags := w.flags[to := w.flags[from]])
  }

  function PutRaw(kind: Kind, w: World, to: nat, h: nat): (w': World)
    requires Sized(w) && to < |w.objects|
    ensures Sized(w') && |w'.objects| == |w.objects|
  {
    w.(counts := LetGo(w.counts, w.objects[to], w.flags[to]),
       objects := w.objects[to := h], flags := w.flags[to := IsCounted(kind, h)])
  }

  /** Empty the wrappers at `at`, one after the other. */
  function DestroyAll(kind: Kind, w: World, at: seq<nat>): (w': World)
    requires Sized(w) && forall k :: 0 <= k < |at| ==> at[k] < |w.objects|
    ensures Sized(w') && |w'.objects| == |w.objects|
    decreases |at|
  {
    if at == [] then w else DestroyAll(kind, PutRaw(kind, w, at[0], NULL), at[1..])
  }

  /** Retain one after the other, until one fails. */
  function RetainAll(kind: Kind, c: Counts, hs: seq<nat>): Counts
    decreases |hs|
  {
    if hs == [] || c.bad then c else RetainAll(kind, TakeUp(c, hs[0], IsCounted(kind, hs[0])), hs[1..])
  }

  function AppendRaw(kind: Kind, w: World, hs: seq<nat>): (w': World)
    requires Sized(w)
    ensures Sized(w')
  {
    w.(objects := w.objects + hs, flags := w.flags + seq(|hs|, k requires 0 <= k < |hs| => IsCounted(kind, hs[k])))
  }

  predicate Applicable(w: World, op: Op) {
    match op
    case Copy(from) => from < |w.objects|
    case Assign(to, from) => to < |w.objects| && from < |w.objects|
    case AssignRaw(to, h) => to < |w.objects|
    case Destroy(at) => at < |w.objects|
    case GetInfo(to, h) => to < |w.objects|
    case GetInfoAll(prior, hs) => forall k :: 0 <= k < |prior| ==> prior[k] < |w.objects|
    case _ => true
  }

  function Apply(kind: Kind, w: World, op: Op): (w': World)
    requires Sized(w) && Applicable(w, op)
    ensures Sized(w')
  {
    match op
    case Create(h) => w.(counts := w.counts.(refs := w.counts.refs + multiset{h}), loose := w.loose + multiset{h})
    case KeepLoose(h) => w.(counts := Retained(w.counts, h), loose := w.loose + multiset{h})
    case DropLoose(h) => w.(counts := Released(w.counts, h), loose := w.loose - multiset{h})
    case Default => AppendRaw(kind, w, [NULL])
    case Adopt(h) =>
      AppendRaw(kind, w, [h]).(loose := if IsCounted(kind, h) then w.loose - multiset{h} else w.loose)
    case Copy(from) =>
      var h := w.objects[from];
      AppendRaw(kind, w, [h]).(counts := TakeUp(w.counts, h, IsCounted(kind, h)))
    case Assign(to, from) => if to != from then AssignUnguarded(w, to, from) else w
    case AssignRaw(to, h) =>
      PutRaw(kind, w, to, h).(loose := if IsCounted(kind, h) then w.loose - multiset{h} else w.loose)
    case Destroy(at) => PutRaw(kind, w, at, NULL)
    case GetInfo(to, h) =>
      var w' := PutRaw(kind, w, to, h);
      w'.(counts := TakeUp(w'.counts, h, w'.flags[to]))
    case GetInfoAll(prior, hs) =>
      var w' := AppendRaw(kind, DestroyAll(kind, w, prior), hs);
      w'.(counts := RetainAll(kind, w'.counts, hs))
  }

  // ---------- conservation ----------

  function One(kind: Kind, x: nat, h: nat): nat {
    if x == h && IsCounted(kind, h) then 1 else 0
  }

  /** The number of wrappers that count for `h`. */
  function Owners(kind: Kind, objects: seq<nat>, h: nat): nat {
    if objects == [] then 0
    else Owners(kind, objects[..|objects| - 1], h) + One(kind, objects[|objects| - 1], h)
  }

  ghost predicate FlagsTell(kind: Kind, w: World) {
    Sized(w) && forall i :: 0 <= i < |w.objects| ==> w.flags[i] == IsCounted(kind, w.objects[i])
  }

  /** Every reference is somebody's: a wrapper's or a loose one; and each wrapper's
      flag says whether its object is counted. */
  ghost predicate Balanced(kind: Kind, w: World) {
    && FlagsTell(kind, w) && !w.counts.bad
    && forall h: nat :: w.counts.refs[h] == Owners(kind, w.objects, h) + w.loose[h]
  }

  /** The obligations of the code around the wrappers: a raw handle that is adopted
      comes with a reference, a created one is new, and a handle told by the runtime
      stays alive while the wrapper lets go of its old object. */
  ghost predicate Legal(kind: Kind, w: World, op: Op)
    requires Sized(w) && Applicable(w, op)
  {
    match op
    case Create(h) => h !in w.counts.refs
    case KeepLoose(h) => h in w.counts.refs
    case DropLoose(h) => h in w.loose
    case Adopt(h) => IsCounted(kind, h) ==> h in w.loose
    case AssignRaw(to, h) => IsCounted(kind, h) ==> h in w.loose
    case GetInfo(to, h) => IsCounted(kind, h) ==> h in PutRaw(kind, w, to, NULL).counts.refs
    case GetInfoAll(prior, hs) => AllAlive(kind, DestroyAll(kind, w, prior).counts, hs)
    case _ => true
  }

  ghost predicate AllAlive(kind: Kind, c: Counts, hs: seq<nat>) {
    forall h :: h in hs && IsCounted(kind, h) ==> h in c.refs
  }

  lemma {:induction false} OwnersAppend(kind: Kind, x: seq<nat>, y: seq<nat>, h: nat)
    ensures Owners(kind, x + y, h) == Owners(kind, x, h) + Owners(kind, y, h)
  {
    if y == [] {
      assert x + y == x;
    } else {
      var n := |y| - 1;
      OwnersAppend(kind, x, y[..n], h);
      assert (x + y)[..|x + y| - 1] == x + y[..n];
    }
  }

  lemma OwnersOne(kind: Kind, x: nat, h: nat)
    ensures Owners(kind, [x], h) == One(kind, x, h)
  {
  }

  /** Putting `x` into the wrapper `i`. */
  lemma {:induction false} OwnersUpdate(kind: Kind, objects: seq<nat>, i: nat, x: nat, h: nat)
    requires i < |objects|
    ensures Owners(kind, objects, h) >= One(kind, objects[i], h)
    ensures Owners(kind, objects[i := x], h) == Owners(kind, objects, h) - One(kind, objects[i], h) + One(kind, x, h)
  {
    var n := |objects| - 1;
    if i < n {
      OwnersUpdate(kind, objects[..n], i, x, h);
      assert objects[i := x][..n] == objects[..n][i := x];
    } else {
      assert objects[i := x][..n] == objects[..n];
    }
  }

  /** Letting go of one object and holding another without counting it. */
  lemma PutRawCounts(kind: Kind, w: World, to: nat, x: nat)
    requires Balanced(kind, w) && to < |w.objects|
    ensures var w' := PutRaw(kind, w, to, x);
            && FlagsTell(kind, w') && !w'.counts.bad && w'.loose == w.loose
            && w'.counts == PutRaw(kind, w, to, NULL).counts
            && forall h: nat :: w'.counts.refs[h] + One(kind, x, h) == Owners(kind, w'.objects, h) + w.loose[h]
  {
    forall h: nat
      ensures Owners(kind, w.objects, h) >= One(kind, w.objects[to], h)
      ensures Owners(kind, w.objects[to := x], h)
              == Owners(kind, w.objects, h) - One(kind, w.objects[to], h) + One(kind, x, h)
    {
      OwnersUpdate(kind, w.objects, to, x, h);
    }
    var x' := w.objects[to];
    assert w.counts.refs[x'] == Owners(kind, w.objects, x') + w.loose[x'];
  }

  lemma AppendRawCounts(kind: Kind, w: World, hs: seq<nat>)
    requires FlagsTell(kind, w)
    ensures var w' := AppendRaw(kind, w, hs);
            && FlagsTell(kind, w')
            && forall h: nat :: Owners(kind, w'.objects, h) == Owners(kind, w.objects, h) + Owners(kind, hs, h)
  {
    forall h: nat ensures Owners(kind, w.objects + hs, h) == Owners(kind, w.objects, h) + Owners(kind, hs, h) {
      OwnersAppend(kind, w.objects, hs, h);
    }
  }

  lemma AppendOneCounts(kind: Kind, w: World, x: nat)
    requires FlagsTell(kind, w)
    ensures var w' := AppendRaw(kind, w, [x]);
            && FlagsTell(kind, w')
            && forall h: nat :: Owners(kind, w'.objects, h) == Owners(kind, w.objects, h) + One(kind, x, h)
  {
  }

  lemma {:induction false} DestroyAllBalanced(kind: Kind, w: World, at: seq<nat>)
    requires Balanced(kind, w) && forall k :: 0 <= k < |at| ==> at[k] < |w.objects|
    ensures Balanced(kind, DestroyAll(kind, w, at)) && DestroyAll(kind, w, at).loose == w.loose
    decreases |at|
  {
    if at != [] {
      PutRawCounts(kind, w, at[0], NULL);
      DestroyAllBalanced(kind, PutRaw(kind, w, at[0], NULL), at[1..]);
    }
  }

  lemma {:induction false} RetainAllCounts(kind: Kind, c: Counts, hs: seq<nat>)
    requires !c.bad
    ensures var c' := RetainAll(kind, c, hs);
            && (c'.bad <==> !AllAlive(kind, c, hs))
            && (!c'.bad ==> forall h: nat :: c'.refs[h] == c.refs[h] + Owners(kind, hs, h))
    decreases |hs|
  {
    if hs != [] {
      var c1 := TakeUp(c, hs[0], IsCounted(kind, hs[0]));
      if !c1.bad {
        RetainAllCounts(kind, c1, hs[1..]);
        assert AllAlive(kind, c1, hs[1..]) <==> AllAlive(kind, c, hs);
        forall h: nat ensures Owners(kind, hs, h) == One(kind, hs[0], h) + Owners(kind, hs[1..], h) {
          assert hs == [hs[0]] + hs[1..];
          OwnersAppend(kind, [hs[0]], hs[1..], h);
          OwnersOne(kind, hs[0], h);
        }
      }
    }
  }

  /** At the first handle that is dead the retaining stops, and the rest are left alone. */
  lemma {:induction false} RetainAllStops(kind: Kind, c: Counts, hs: seq<nat>, k: nat)
    requires !c.bad && k < |hs| && AllAlive(kind, c, hs[..k])
    requires hs[k] != NULL && kind.counted(hs[k]) && hs[k] !in c.refs
    ensures var c' := RetainAll(kind, c, hs);
            c'.bad && forall h: nat :: c'.refs[h] == c.refs[h] + Owners(kind, hs[..k], h)
    decreases k
  {
    if k > 0 {
      var c1 := TakeUp(c, hs[0], IsCounted(kind, hs[0]));
      assert hs[..k][0] == hs[0] && hs[..k] == [hs[0]] + hs[1..][..k - 1];
      RetainAllStops(kind, c1, hs[1..], k - 1);
      forall h: nat ensures Owners(kind, hs[..k], h) == One(kind, hs[0], h) + Owners(kind, hs[1..][..k - 1], h) {
        OwnersAppend(kind, [hs[0]], hs[1..][..k - 1], h);
        OwnersOne(kind, hs[0], h);
      }
    }
  }

  lemma AssignBalanced(kind: Kind, w: World, to: nat, from: nat)
    requires Balanced(kind, w) && to < |w.objects| && from < |w.objects| && to != from
    ensures Balanced(kind, AssignUnguarded(w, to, from))
  {
    var x := w.objects[from];
    var released := PutRaw(kind, w, to, NULL);
    PutRawCounts(kind, w, to, x);
    PutRawCounts(kind, w, to, NULL);
    OwnersUpdate(kind, released.objects, from, NULL, x);
    assert AssignUnguarded(w, to, from) == PutRaw(kind, w, to, x).(counts := TakeUp(released.counts, x, w.flags[from]));
  }

  lemma GetInfoAllBalanced(kind: Kind, w: World, prior: seq<nat>, hs: seq<nat>)
    requires Balanced(kind, w) && Applicable(w, GetInfoAll(prior, hs))
    ensures Balanced(kind, Apply(kind, w, GetInfoAll(prior, hs))) <==> Legal(kind, w, GetInfoAll(prior, hs))
  {
    var w1 := DestroyAll(kind, w, prior);
    DestroyAllBalanced(kind, w, prior);
    AppendRawCounts(kind, w1, hs);
    RetainAllCounts(kind, AppendRaw(kind, w1, hs).counts, hs);
  }

  /** A wrapper that has been given `x` without counting takes over a loose reference. */
  lemma TakeOver(kind: Kind, w: World, x: nat)
    requires FlagsTell(kind, w) && !w.counts.bad
    requires forall h: nat :: w.counts.refs[h] + One(kind, x, h) == Owners(kind, w.objects, h) + w.loose[h]
    ensures Balanced(kind, w.(loose := if IsCounted(kind, x) then w.loose - multiset{x} else w.loose))
            <==> (IsCounted(kind, x) ==> x in w.loose)
  {
  }

  lemma AssignRawBalanced(kind: Kind, w: World, to: nat, x: nat)
    requires Balanced(kind, w) && to < |w.objects|
    ensures Balanced(kind, Apply(kind, w, AssignRaw(to, x))) <==> Legal(kind, w, AssignRaw(to, x))
    ensures Balanced(kind, Apply(kind, w, Destroy(to)))
  {
    assert Sized(w);
    hide Balanced, FlagsTell, Owners, PutRaw;
    PutRawCounts(kind, w, to, NULL);
    PutRawCounts(kind, w, to, x);
    assert Apply(kind, w, Destroy(to)) == PutRaw(kind, w, to, NULL);
    TakeOver(kind, PutRaw(kind, w, to, x), x);
    TakeOver(kind, PutRaw(kind, w, to, NULL), NULL);
  }

  lemma GetInfoBalanced(kind: Kind, w: World, to: nat, x: nat)
    requires Balanced(kind, w) && to < |w.objects|
    ensures Balanced(kind, Apply(kind, w, GetInfo(to, x))) <==> Legal(kind, w, GetInfo(to, x))
  {
    PutRawCounts(kind, w, to, x);
  }

  lemma LooseBalanced(kind: Kind, w: World, h: nat)
    requires Balanced(kind, w)
    ensures Balanced(kind, Apply(kind, w, Create(h)))
    ensures Balanced(kind, Apply(kind, w, KeepLoose(h))) <==> h in w.counts.refs
  {
  }

  lemma DropLooseBalanced(kind: Kind, w: World, h: nat)
    requires Balanced(kind, w)
    ensures Balanced(kind, Apply(kind, w, DropLoose(h))) <==> h in w.loose
  {
  }

  lemma AppendBalanced(kind: Kind, w: World, h: nat)
    requires Balanced(kind, w)
    ensures Balanced(kind, Apply(kind, w, Default))
    ensures Balanced(kind, Apply(kind, w, Adopt(h))) <==> (IsCounted(kind, h) ==> h in w.loose)
  {
    hide Owners;
    AppendOneCounts(kind, w, NULL);
    AppendOneCounts(kind, w, h);
    TakeOver(kind, AppendRaw(kind, w, [h]), h);
    TakeOver(kind, AppendRaw(kind, w, [NULL]), NULL);
  }

  lemma CopyBalanced(kind: Kind, w: World, from: nat)
    requires Balanced(kind, w) && from < |w.objects|
    ensures Balanced(kind, Apply(kind, w, Copy(from)))
  {
    AppendOneCounts(kind, w, w.objects[from]);
    OwnersUpdate(kind, w.objects, from, NULL, w.objects[from]);
  }

  /** Every operation keeps the balance exactly when its obligation is met. */
  lemma ApplyBalanced(kind: Kind, w: World, op: Op)
    requires Balanced(kind, w) && Applicable(w, op)
    ensures !op.Create? ==> (Balanced(kind, Apply(kind, w, op)) <==> Legal(kind, w, op))
    ensures op.Create? ==> Balanced(kind, Apply(kind, w, op))
  {
    match op
    case Create(h) => LooseBalanced(kind, w, h);
    case KeepLoose(h) => LooseBalanced(kind, w, h);
    case DropLoose(h) => DropLooseBalanced(kind, w, h);
    case Default => AppendBalanced(kind, w, NULL);
    case Adopt(h) => AppendBalanced(kind, w, h);
    case Copy(from) => CopyBalanced(kind, w, from);
    case Assign(to, from) =>
      if to != from {
        AssignBalanced(kind, w, to, from);
      }
    case AssignRaw(to, h) => AssignRawBalanced(kind, w, to, h);
    case Destroy(at) => AssignRawBalanced(kind, w, at, NULL);
    case GetInfo(to, h) => GetInfoBalanced(kind, w, to, h);
    case GetInfoAll(prior, hs) => GetInfoAllBalanced(kind, w, prior, hs);
  }

  /** The references to an object that is counted are its wrappers and the loose ones. */
  lemma {:induction false} OwnersCount(kind: Kind, objects: seq<nat>, h: nat)
    ensures Owners(kind, objects, h) == if h != NULL && kind.counted(h) then multiset(objects)[h] else 0
  {
    if objects != [] {
      var n := |objects| - 1;
      OwnersCount(kind, objects[..n], h);
      assert objects == objects[..n] + [objects[n]];
    }
  }

  lemma {:induction false} DestroyAllEmpties(kind: Kind, w: World, at: seq<nat>)
    requires Sized(w) && forall k :: 0 <= k < |at| ==> at[k] < |w.objects|
    ensures forall i :: 0 <= i < |w.objects| ==>
              DestroyAll(kind, w, at).objects[i] == if i in at then NULL else w.objects[i]
    decreases |at|
  {
    if at != [] {
      DestroyAllEmpties(kind, PutRaw(kind, w, at[0], NULL), at[1..]);
      assert at == [at[0]] + at[1..];
    }
  }

  /** What an operation leaves in the wrappers that there were, and in those it adds. */
  ghost predicate Leaves(op: Op, x: seq<nat>, x': seq<nat>) {
    && |x'| == |x| + (if op.Default? || op.Adopt? || op.Copy? then 1 else if op.GetInfoAll? then |op.hs| else 0)
    && (forall i :: 0 <= i < |x| ==>
          x'[i] == if op.Assign? && i == op.to && op.from < |x| then x[op.from]
                   else if (op.AssignRaw? || op.GetInfo?) && i == op.to then op.h
                   else if op.Destroy? && i == op.at then NULL
                   else if op.GetInfoAll? && i in op.prior then NULL
                   else x[i])
    && (forall i :: |x| <= i < |x'| ==>
          x'[i] == if op.Adopt? then op.h
                   else if op.Copy? && op.from < |x| then x[op.from]
                   else if op.GetInfoAll? then op.hs[i - |x|]
                   else NULL)
  }

  /** The references outside of the wrappers: a raw handle brings its own into one. */
  ghost predicate LeavesLoose(kind: Kind, op: Op, z: multiset<nat>, z': multiset<nat>) {
    match op
    case Create(h) => z' == z + multiset{h}
    case KeepLoose(h) => z' == z + multiset{h}
    case DropLoose(h) => z' == z - multiset{h}
    case Adopt(h) => z' == if h != NULL && kind.counted(h) then z - multiset{h} else z
    case AssignRaw(to, h) => z' == if h != NULL && kind.counted(h) then z - multiset{h} else z
    case _ => z' == z
  }

  /** No dead object has been touched, each wrapper of a counted object has one of its
      references and the others are loose, and every flag says whether it counts. */
  ghost predicate EachHasOne(kind: Kind, w: World) {
    && !w.counts.bad && Sized(w)
    && (forall i :: 0 <= i < |w.objects| ==> w.flags[i] == (w.objects[i] != NULL && kind.counted(w.objects[i])))
    && (forall h: nat ::
          w.counts.refs[h] == (if h != NULL && kind.counted(h) then multiset(w.objects)[h] else 0) + w.loose[h])
  }

  lemma ApplyObjects(kind: Kind, w: World, op: Op)
    requires Sized(w) && Applicable(w, op)
    ensures Leaves(op, w.objects, Apply(kind, w, op).objects)
  {
    if op.GetInfoAll? {
      DestroyAllEmpties(kind, w, op.prior);
    }
  }

  lemma ApplyLoose(kind: Kind, w: World, op: Op)
    requires Sized(w) && Applicable(w, op)
    ensures LeavesLoose(kind, op, w.loose, Apply(kind, w, op).loose)
  {
    if op.GetInfoAll? {
      DestroyAllLoose(kind, w, op.prior);
    }
  }

  lemma {:induction false} DestroyAllLoose(kind: Kind, w: World, at: seq<nat>)
    requires Sized(w) && forall k :: 0 <= k < |at| ==> at[k] < |w.objects|
    ensures DestroyAll(kind, w, at).loose == w.loose
    decreases |at|
  {
    if at != [] {
      DestroyAllLoose(kind, PutRaw(kind, w, at[0], NULL), at[1..]);
    }
  }

  lemma ApplyReferences(kind: Kind, w: World, op: Op)
    requires Balanced(kind, w) && Applicable(w, op) && Legal(kind, w, op)
    ensures EachHasOne(kind, Apply(kind, w, op))
  {
    ApplyBalanced(kind, w, op);
    BalancedMeans(kind, Apply(kind, w, op));
  }

  lemma BalancedMeans(kind: Kind, w: World)
    requires Balanced(kind, w)
    ensures EachHasOne(kind, w)
  {
    forall h: nat
      ensures Owners(kind, w.objects, h) == if h != NULL && kind.counted(h) then multiset(w.objects)[h] else 0
    {
      OwnersCount(kind, w.objects, h);
    }
  }

  /** Assignment between wrappers of different counted objects: one reference goes, one
      comes, and no other object is touched. */
  lemma AssignMovesOne(kind: Kind, w: World, to: nat, from: nat, h: nat)
    requires Balanced(kind, w) && Applicable(w, Assign(to, from))
    ensures var refs, refs' := w.counts.refs, Apply(kind, w, Assign(to, from)).counts.refs;
            var counted := h != NULL && kind.counted(h);
            refs'[h] + (if counted && h == w.objects[to] then 1 else 0)
            == refs[h] + (if counted && h == w.objects[from] then 1 else 0)
  {
    var w' := Apply(kind, w, Assign(to, from));
    BalancedMeans(kind, w);
    ApplyReferences(kind, w, Assign(to, from));
    assert w'.objects == w.objects[to := w.objects[from]] && w'.loose == w.loose;
    CountUpdate(w.objects, to, w.objects[from], h);
    hide Apply, Balanced, Owners, Legal;
  }

  lemma CountUpdate(x: seq<nat>, to: nat, v: nat, h: nat)
    requires to < |x|
    ensures multiset(x[to := v])[h] + (if x[to] == h then 1 else 0) == multiset(x)[h] + (if v == h then 1 else 0)
  {
  }

  // ---------- whole programs ----------

  /** Every operation of the program is applicable and legal where it comes. */
  ghost predicate LegalProgram(kind: Kind, w: World, ops: seq<Op>)
    requires Sized(w)
    decreases |ops|
  {
    ops == []
    || (Applicable(w, ops[0]) && Legal(kind, w, ops[0]) && LegalProgram(kind, Apply(kind, w, ops[0]), ops[1..]))
  }

  ghost function Execute(kind: Kind, w: World, ops: seq<Op>): (w': World)
    requires Sized(w) && LegalProgram(kind, w, ops)
    decreases |ops|
  {
    if ops == [] then w else Execute(kind, Apply(kind, w, ops[0]), ops[1..])
  }

  /** Conservation over every sequence of operations: no dead object is ever retained
      or released, each object has exactly as many references as owners, and so it
      dies with the last of them and not before. */
  lemma {:induction false} Conservation(kind: Kind, w: World, ops: seq<Op>)
    requires Balanced(kind, w) && LegalProgram(kind, w, ops)
    ensures var w' := Execute(kind, w, ops);
            && !w'.counts.bad
            && (forall h: nat :: w'.counts.refs[h] == Owners(kind, w'.objects, h) + w'.loose[h])
            && Balanced(kind, w')
    decreases |ops|
  {
    if ops != [] {
      ApplyBalanced(kind, w, ops[0]);
      Conservation(kind, Apply(kind, w, ops[0]), ops[1..]);
    }
  }

  /** Why the derived classes guard against self-assignment: without the guard the
      object is released first, which kills it if this was the only reference. */
  lemma UnguardedSelfAssignment(kind: Kind, w: World, i: nat)
    requires Balanced(kind, w) && i < |w.objects|
    ensures Balanced(kind, AssignUnguarded(w, i, i)) <==>
            !(IsCounted(kind, w.objects[i]) && w.counts.refs[w.objects[i]] == 1)
  {
    assert w.objects[i := w.objects[i]] == w.objects && w.flags[i := w.flags[i]] == w.flags;
    OwnersUpdate(kind, w.objects, i, NULL, w.objects[i]);
  }
}
