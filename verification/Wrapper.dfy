/**
  The owning wrappers of cl.hpp as objects, executing the operations of
  HandleCounts in place.
 */
module WrapperObjects {
  import opened HandleCounts

  const CL_SUCCESS := 0
  const CL_INVALID_OBJECT := -1  // whichever CL_INVALID_... the object's type has

  /** The OpenCL runtime's retain and release calls. */
  class Runtime {
    var counts: Counts

    constructor ()
      ensures counts == Counts(multiset{}, false)
    {
      counts := Counts(multiset{}, false);
    }

    method Retain(h: nat) returns (err: int)
      modifies this
      ensures counts == Retained(old(counts), h)
      ensures err == if h in old(counts).refs then CL_SUCCESS else CL_INVALID_OBJECT
    {
      err := if h in counts.refs then CL_SUCCESS else CL_INVALID_OBJECT;
      counts := Retained(counts, h);
    }

    method Release(h: nat) returns (err: int)
      modifies this
      ensures counts == Released(old(counts), h)
      ensures err == if h in old(counts).refs then CL_SUCCESS else CL_INVALID_OBJECT
    {
      err := if h in counts.refs then CL_SUCCESS else CL_INVALID_OBJECT;
      counts := Released(counts, h);
    }
  }

  /** detail::Wrapper.  Only the specialisation for devices stores the flag; for the
      other types every handle is counted and retain and release always act. */
  class Wrapper {
    const kind: Kind
    const runtime: Runtime
    var handle: nat
    var referenceCountable: bool

    constructor Default(kind: Kind, runtime: Runtime)
      ensures this.kind == kind && this.runtime == runtime && handle == NULL && !referenceCountable
    {
      this.kind, this.runtime, handle, referenceCountable := kind, runtime, NULL, false;
    }

    constructor Adopt(kind: Kind, runtime: Runtime, h: nat)
      ensures this.kind == kind && this.runtime == runtime && handle == h && referenceCountable == IsCounted(kind, h)
    {
      this.kind, this.runtime, handle, referenceCountable := kind, runtime, h, IsCounted(kind, h);
    }

    constructor Copy(rhs: Wrapper)
      modifies rhs.runtime
      ensures kind == rhs.kind && runtime == rhs.runtime && handle == rhs.handle
      ensures referenceCountable == IsCounted(kind, handle)
      ensures runtime.counts == TakeUp(old(rhs.runtime.counts), rhs.handle, IsCounted(rhs.kind, rhs.handle))
    {
      kind, runtime, handle, referenceCountable := rhs.kind, rhs.runtime, rhs.handle, IsCounted(rhs.kind, rhs.handle);
      new;
      if handle != NULL {
        var err := Retain();
      }
    }

    method Retain() returns (err: int)
      modifies runtime
      ensures runtime.counts == if referenceCountable then Retained(old(runtime.counts), handle)
              else old(runtime.counts)
      ensures err == CL_SUCCESS <==> referenceCountable ==> handle in old(runtime.counts).refs
    {
      err := CL_SUCCESS;
      if referenceCountable {
        err := runtime.Retain(handle);
      }
    }

    method Release() returns (err: int)
      modifies runtime
      ensures runtime.counts == if referenceCountable then Released(old(runtime.counts), handle)
              else old(runtime.counts)
    {
      err := CL_SUCCESS;
      if referenceCountable {
        err := runtime.Release(handle);
      }
    }

    /** The destructor; the handle of a dead wrapper is forgotten. */
    method Destroy()
      modifies this, runtime
      ensures handle == NULL && !referenceCountable
      ensures runtime.counts == LetGo(old(runtime.counts), old(handle), old(referenceCountable))
    {
      if handle != NULL {
        var err := Release();
      }
      handle, referenceCountable := NULL, false;
    }

    /** operator= of the base class: release, copy, retain. */
    method AssignBase(rhs: Wrapper)
      requires rhs.runtime == runtime && rhs.kind == kind
      modifies this, runtime
      ensures handle == old(rhs.handle) && referenceCountable == old(rhs.referenceCountable)
      ensures runtime.counts
              == TakeUp(LetGo(old(runtime.counts), old(handle), old(referenceCountable)), handle, referenceCountable)
    {
      if handle != NULL {
        var err := Release();
      }
      handle := rhs.handle;
      referenceCountable := rhs.referenceCountable;
      if handle != NULL {
        var err := Retain();
      }
    }

    /** operator= of the derived classes. */
    method Assign(rhs: Wrapper)
      requires rhs.runtime == runtime && rhs.kind == kind
      modifies this, runtime
      ensures handle == old(rhs.handle) && referenceCountable == old(rhs.referenceCountable)
      ensures runtime.counts == if this == rhs then old(runtime.counts)
                                else TakeUp(LetGo(old(runtime.counts), old(handle), old(referenceCountable)),
                                            handle, referenceCountable)
    {
      if this != rhs {
        AssignBase(rhs);
      }
    }

    method AssignRaw(h: nat)
      modifies this, runtime
      ensures handle == h && referenceCountable == IsCounted(kind, h)
      ensures runtime.counts == LetGo(old(runtime.counts), old(handle), old(referenceCountable))
    {
      if handle != NULL {
        var err := Release();
      }
      handle := h;
      referenceCountable := IsCounted(kind, handle);
    }

    /** getInfoHelper, the query having answered `value`. */
    method GetInfo(value: nat) returns (err: int)
      modifies this, runtime
      ensures handle == value && referenceCountable == IsCounted(kind, value)
      ensures var c := LetGo(old(runtime.counts), old(handle), old(referenceCountable));
              && runtime.counts == TakeUp(c, value, IsCounted(kind, value))
              && (err == CL_SUCCESS <==> (IsCounted(kind, value) ==> value in c.refs))
    {
      AssignRaw(value);
      if value != NULL {
        err := Retain();
        if err != CL_SUCCESS {
          return;
        }
      }
      return CL_SUCCESS;
    }
  }

  lemma AppendRawEmpty(kind: Kind, w: World)
    requires Sized(w)
    ensures AppendRaw(kind, w, []) == w
  {
  }

  lemma AppendRawMore(kind: Kind, w: World, hs: seq<nat>, i: nat)
    requires Sized(w) && i < |hs|
    ensures AppendRaw(kind, AppendRaw(kind, w, hs[..i]), [hs[i]]) == AppendRaw(kind, w, hs[..i + 1])
  {
  }

  lemma AppendRawAt(kind: Kind, w: World, hs: seq<nat>)
    requires Sized(w)
    ensures var w' := AppendRaw(kind, w, hs);
            && w'.counts == w.counts && |w'.objects| == |w.objects| + |hs|
            && forall k :: 0 <= k < |hs| ==>
              w'.objects[|w.objects| + k] == hs[k] && w'.flags[|w.objects| + k] == IsCounted(kind, hs[k])
  {
  }

  lemma DestroyAllSound(kind: Kind, w: World, at: seq<nat>)
    requires Balanced(kind, w) && forall k :: 0 <= k < |at| ==> at[k] < |w.objects|
    ensures !DestroyAll(kind, w, at).counts.bad
  {
    DestroyAllBalanced(kind, w, at);
  }

  /** All wrappers of a program, with the references that are in none of them. */
  class Program {
    const kind: Kind
    const runtime: Runtime
    var wrappers: seq<Wrapper>
    ghost var loose: multiset<nat>

    constructor (kind: Kind)
      ensures Valid() && this.kind == kind && fresh(runtime) && wrappers == []
      ensures View() == EMPTY_WORLD
    {
      this.kind := kind;
      runtime := new Runtime();
      wrappers, loose := [], multiset{};
    }

    ghost predicate Valid()
      reads this
    {
      && (forall i :: 0 <= i < |wrappers| ==> wrappers[i].kind == kind && wrappers[i].runtime == runtime)
      && forall i, j :: 0 <= i < j < |wrappers| ==> wrappers[i] != wrappers[j]
    }

    ghost function Handles(): (r: seq<nat>)
      reads this, wrappers
      ensures |r| == |wrappers| && forall i :: 0 <= i < |r| ==> r[i] == wrappers[i].handle
    {
      seq(|wrappers|, i requires 0 <= i < |wrappers| reads this, wrappers => wrappers[i].handle)
    }

    ghost function Flags(): (r: seq<bool>)
      reads this, wrappers
      ensures |r| == |wrappers| && forall i :: 0 <= i < |r| ==> r[i] == wrappers[i].referenceCountable
    {
      seq(|wrappers|, i requires 0 <= i < |wrappers| reads this, wrappers => wrappers[i].referenceCountable)
    }

    ghost function View(): World
      reads this, wrappers, runtime
    {
      World(runtime.counts, Handles(), Flags(), loose)
    }

    /** The wrappers there were, and possibly new ones after them. */
    twostate predicate OnlyAdds()
      reads this
    {
      old(wrappers) <= wrappers && forall i :: |old(wrappers)| <= i < |wrappers| ==> fresh(wrappers[i])
    }

    method Append(w: Wrapper)
      requires Valid() && w !in wrappers && w.kind == kind && w.runtime == runtime
      modifies this`wrappers
      ensures Valid() && wrappers == old(wrappers) + [w]
      ensures Handles() == old(Handles()) + [w.handle] && Flags() == old(Flags()) + [w.referenceCountable]
    {
      wrappers := wrappers + [w];
    }

    /** One operation, carried out by the wrapper methods. */
    method DoAssign(to: nat, from: nat)
      requires Valid() && Applicable(View(), Assign(to, from))
      modifies wrappers, runtime
      ensures Valid() && View() == Apply(kind, old(View()), Assign(to, from))
      ensures wrappers[to].handle == old(wrappers[from].handle)
      ensures forall i :: 0 <= i < |wrappers| && i != to ==> unchanged(wrappers[i])
    {
      assert to != from ==> wrappers[to] != wrappers[from];
      wrappers[to].Assign(wrappers[from]);
      assert to != from ==> && Handles() == old(Handles())[to := old(Handles())[from]]
                            && Flags() == old(Flags())[to := old(Flags())[from]];
      assert to == from ==> Handles() == old(Handles()) && Flags() == old(Flags());
    }

    method DoAssignRaw(to: nat, h: nat)
      requires Valid() && to < |wrappers|
      modifies this`loose, wrappers, runtime
      ensures Valid() && View() == Apply(kind, old(View()), AssignRaw(to, h))
      ensures wrappers[to].handle == h && forall i :: 0 <= i < |wrappers| && i != to ==> unchanged(wrappers[i])
    {
      hide Balanced, Owners, Applicable;
      wrappers[to].AssignRaw(h);
      loose := if IsCounted(kind, h) then loose - multiset{h} else loose;
      assert Handles() == old(Handles())[to := h] && Flags() == old(Flags())[to := IsCounted(kind, h)];
    }

    method DoDestroy(at: nat)
      requires Valid() && at < |wrappers|
      modifies wrappers, runtime
      ensures Valid() && View() == Apply(kind, old(View()), Destroy(at))
              && View() == PutRaw(kind, old(View()), at, NULL)
      ensures wrappers[at].handle == NULL && forall i :: 0 <= i < |wrappers| && i != at ==> unchanged(wrappers[i])
    {
      wrappers[at].Destroy();
      assert Handles() == old(Handles())[at := NULL] && Flags() == old(Flags())[at := IsCounted(kind, NULL)];
    }

    method DoGetInfo(to: nat, h: nat) returns (err: int)
      requires Valid() && to < |wrappers|
      modifies wrappers, runtime
      ensures Valid() && View() == Apply(kind, old(View()), GetInfo(to, h))
      ensures wrappers[to].handle == h && forall i :: 0 <= i < |wrappers| && i != to ==> unchanged(wrappers[i])
    {
      err := wrappers[to].GetInfo(h);
      assert Handles() == old(Handles())[to := h] && Flags() == old(Flags())[to := IsCounted(kind, h)];
    }

    method DoDefault()
      requires Valid()
      modifies this
      ensures Valid() && OnlyAdds() && View() == Apply(kind, old(View()), Default)
    {
      var w := new Wrapper.Default(kind, runtime);
      Append(w);
      assert Flags() == old(Flags()) + seq(1, k requires 0 <= k < 1 => IsCounted(kind, [NULL][k]));
    }

    method DoAdopt(h: nat)
      requires Valid()
      modifies this
      ensures Valid() && OnlyAdds() && View() == Apply(kind, old(View()), Adopt(h))
    {
      var w := new Wrapper.Adopt(kind, runtime, h);
      Append(w);
      loose := if IsCounted(kind, h) then loose - multiset{h} else loose;
      assert Flags() == old(Flags()) + seq(1, k requires 0 <= k < 1 => IsCounted(kind, [h][k]));
    }

    method DoCopy(from: nat)
      requires Valid() && from < |wrappers|
      modifies this, runtime
      ensures Valid() && OnlyAdds() && View() == Apply(kind, old(View()), Copy(from))
      ensures |wrappers| == old(|wrappers|) + 1 && wrappers[|wrappers| - 1].handle == old(wrappers[from].handle)
    {
      var w := new Wrapper.Copy(wrappers[from]);
      Append(w);
      var h := w.handle;
      assert Flags() == old(Flags()) + seq(1, k requires 0 <= k < 1 => IsCounted(kind, [h][k]));
    }

    method DestroyEach(prior: seq<nat>)
      requires Valid() && forall k :: 0 <= k < |prior| ==> prior[k] < |wrappers|
      modifies wrappers, runtime
      ensures Valid() && View() == DestroyAll(kind, old(View()), prior)
    {
      ghost var w := View();
      var i := 0;
      while i < |prior|
        invariant 0 <= i <= |prior| && Valid()
        invariant DestroyAll(kind, View(), prior[i..]) == DestroyAll(kind, w, prior)
      {
        DoDestroy(prior[i]);
        i := i + 1;
      }
    }

    method AppendOne(h: nat)
      requires Valid()
      modifies this`wrappers
      ensures Valid() && OnlyAdds() && View() == AppendRaw(kind, old(View()), [h])
    {
      var w := new Wrapper.Adopt(kind, runtime, h);
      Append(w);
      assert Flags() == old(Flags()) + seq(1, k requires 0 <= k < 1 => IsCounted(kind, [h][k]));
    }

    method AppendEach(hs: seq<nat>)
      requires Valid()
      modifies this`wrappers
      ensures Valid() && OnlyAdds() && View() == AppendRaw(kind, old(View()), hs)
    {
      hide AppendRaw;
      ghost var w := View();
      AppendRawEmpty(kind, w);
      var i := 0;
      while i < |hs|
        invariant 0 <= i <= |hs| && Valid() && OnlyAdds() && View() == AppendRaw(kind, w, hs[..i])
      {
        AppendOne(hs[i]);
        AppendRawMore(kind, w, hs, i);
        i := i + 1;
      }
      assert hs[..i] == hs;
    }

    method RetainEach(start: nat, hs: seq<nat>) returns (err: int)
      requires Valid() && |wrappers| == start + |hs| && !runtime.counts.bad
      requires forall k :: 0 <= k < |hs| ==>
                 wrappers[start + k].handle == hs[k] && wrappers[start + k].referenceCountable == IsCounted(kind, hs[k])
      modifies runtime
      ensures View() == old(View()).(counts := RetainAll(kind, old(runtime.counts), hs))
      ensures err == CL_SUCCESS <==> !runtime.counts.bad
    {
      var i := 0;
      while i < |hs|
        invariant 0 <= i <= |hs| && !runtime.counts.bad
        invariant RetainAll(kind, runtime.counts, hs[i..]) == RetainAll(kind, old(runtime.counts), hs)
      {
        if hs[i] != NULL {
          err := wrappers[start + i].Retain();
          if err != CL_SUCCESS {
            return;
          }
        }
        i := i + 1;
      }
      return CL_SUCCESS;
    }

    /** getInfoHelper for a vector of wrappers: assign() lets go of the prior elements
        and makes new ones from the raw handles; then each is retained. */
    method DoGetInfoAll(prior: seq<nat>, hs: seq<nat>) returns (err: int)
      requires Valid() && Applicable(View(), GetInfoAll(prior, hs)) && Balanced(kind, View())
      modifies this`wrappers, wrappers, runtime
      ensures Valid() && OnlyAdds() && View() == Apply(kind, old(View()), GetInfoAll(prior, hs))
      ensures err == CL_SUCCESS <==> !runtime.counts.bad
    {
      hide AppendRaw, DestroyAll, RetainAll, Balanced;
      DestroyAllSound(kind, View(), prior);
      DestroyEach(prior);
      var start := |wrappers|;
      AppendRawAt(kind, View(), hs);
      AppendEach(hs);
      assert forall k :: 0 <= k < |hs| ==>
             Handles()[start + k] == hs[k] && Flags()[start + k] == IsCounted(kind, hs[k]);
      err := RetainEach(start, hs);
    }

    /** The code around the wrappers. */
    method DoLoose(op: Op)
      requires Valid() && (op.Create? || op.KeepLoose? || op.DropLoose?)
      modifies this`loose, runtime
      ensures Valid() && View() == Apply(kind, old(View()), op)
    {
      match op {
        case Create(h) =>
          runtime.counts := runtime.counts.(refs := runtime.counts.refs + multiset{h});
          loose := loose + multiset{h};
        case KeepLoose(h) =>
          var err := runtime.Retain(h);
          loose := loose + multiset{h};
        case DropLoose(h) =>
          var err := runtime.Release(h);
          loose := loose - multiset{h};
      }
      assert Handles() == old(Handles()) && Flags() == old(Flags());
    }

    /** One operation: what it leaves in the wrappers that there were, which wrapper it
        adds, and -- its obligation met -- that a counted object has one reference for
        each wrapper that holds it besides the loose ones, and every flag tells. */
    method Do(op: Op)
      requires Valid() && Applicable(View(), op) && Balanced(kind, View())
      modifies this, wrappers, runtime
      ensures Valid() && OnlyAdds() && View() == Apply(kind, old(View()), op)
      ensures Leaves(op, old(Handles()), Handles()) && LeavesLoose(kind, op, old(loose), loose)
      ensures Legal(kind, old(View()), op) ==> EachHasOne(kind, View())
    {
      ghost var w := View();
      assert w == World(runtime.counts, Handles(), Flags(), loose);
      ApplyObjects(kind, w, op);
      ApplyLoose(kind, w, op);
      if Legal(kind, w, op) {
        ApplyReferences(kind, w, op);
      }
      hide *;
      Perform(op);
    }

    method Perform(op: Op)
      requires Valid() && Applicable(View(), op) && Balanced(kind, View())
      modifies this, wrappers, runtime
      ensures Valid() && OnlyAdds() && View() == Apply(kind, old(View()), op)
      ensures View() == World(runtime.counts, Handles(), Flags(), loose)
    {
      match op
      case Default => DoDefault();
      case Adopt(h) => DoAdopt(h);
      case Copy(from) => DoCopy(from);
      case Assign(to, from) => DoAssign(to, from);
      case AssignRaw(to, h) => DoAssignRaw(to, h);
      case Destroy(at) => DoDestroy(at);
      case GetInfo(to, h) => var err := DoGetInfo(to, h);
      case GetInfoAll(prior, hs) => var err := DoGetInfoAll(prior, hs);
      case _ => DoLoose(op);
    }
  }

  /** Any legal program, run on real wrapper objects from the start, stays balanced. */
  method RunProgram(kind: Kind, ops: seq<Op>) returns (p: Program)
    requires LegalProgram(kind, EMPTY_WORLD, ops)
    ensures p.Valid() && p.kind == kind && Balanced(kind, p.View())
    ensures p.View() == Execute(kind, EMPTY_WORLD, ops) && EachHasOne(kind, p.View())
  {
    p := new Program(kind);
    ghost var start := p.View();
    assert ops[0..] == ops;
    var i := 0;
    while i < |ops|
      invariant 0 <= i <= |ops| && p.Valid() && p.kind == kind && Balanced(kind, p.View())
      invariant fresh(p) && fresh(p.runtime) && fresh(p.wrappers)
      invariant LegalProgram(kind, p.View(), ops[i..]) && Execute(kind, p.View(), ops[i..]) == Execute(kind, start, ops)
    {
      ApplyBalanced(kind, p.View(), ops[i]);
      p.Do(ops[i]);
      i := i + 1;
    }
    BalancedMeans(kind, p.View());
  }
}
