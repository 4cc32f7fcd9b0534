/**
  The lazily made default objects of cl.hpp, as interleaved steps of any number
  of threads under sequential consistency.  Each default is a cell of three static
  variables guarded by a compare-and-swap; making the default queue first asks for
  the default context, so the two protocols nest.
 */
module LazyDefault {
  const NOT_INITIALIZED := 1
  const BEING_INITIALIZED := 2
  const INITIALIZED := 4
  const SUCCESS := 0
  const NULL := 0

  /** default_initialized_, default_ and default_error_.  History: the thread that won
      the compare-and-swap, and the result of every run of the initialiser. */
  datatype Cell = Cell(flag: int, obj: int, err: int, winner: int, made: seq<(int, int)>)

  /** Where a thread is in getDefault. */
  datatype Pc = Cas | Spin | Make | StoreError | Publish | ReadError | ReadObject | Returned

  /** A call of getDefault; `error` is the local variable and then *err. */
  datatype Call = Call(pc: Pc, obj: int, error: int)

  /** wants[t]: thread t calls CommandQueue::getDefault, else Context::getDefault.
      ctx[t] and que[t] are its calls of the two functions. */
  datatype State = State(context: Cell, queue: Cell, wants: seq<bool>, ctx: seq<Call>, que: seq<Call>)

  predicate Bit(flags: int, bit: int)
    requires bit > 0
  {
    (flags / bit) % 2 == 1
  }

  /** __sync_val_compare_and_swap: the new value and the old one. */
  function CompareExchange(dest: int, exchange: int, comparand: int): (int, int) {
    (if dest == comparand then exchange else dest, dest)
  }

  /** One atomic step of thread `t` in one call; `made` is what the initialiser makes. */
  function Advance(cell: Cell, call: Call, t: int, made: (int, int)): (Cell, Call) {
    match call.pc
    case Cas =>
      var (flag, state) := CompareExchange(cell.flag, BEING_INITIALIZED, NOT_INITIALIZED);
      if Bit(state, INITIALIZED) then (cell.(flag := flag), call.(pc := ReadError))
      else if Bit(state, BEING_INITIALIZED) then (cell.(flag := flag), call.(pc := Spin))
      else (cell.(flag := flag, winner := t), call.(pc := Make))
    case Spin => if cell.flag != INITIALIZED then (cell, call) else (cell, call.(pc := ReadError))
    case Make => (cell.(obj := made.0, made := cell.made + [made]), call.(pc := StoreError, error := made.1))
    case StoreError => (cell.(err := call.error), call.(pc := Publish))
    case Publish => (cell.(flag := INITIALIZED), call.(pc := ReadError))
    case ReadError => (cell, call.(pc := ReadObject, error := cell.err))
    case ReadObject => (cell, call.(pc := Returned, obj := cell.obj))
    case Returned => (cell, call)
  }

  predicate Threads(s: State) {
    |s.wants| == |s.ctx| == |s.que|
  }

  /** Thread `t` is inside Context::getDefault: called directly, or by the queue's initialiser. */
  predicate InContext(s: State, t: int)
    requires Threads(s) && 0 <= t < |s.wants|
  {
    !s.wants[t] || (s.que[t].pc == Make && s.ctx[t].pc != Returned)
  }

  /** What the queue's initialiser makes: nothing if there is no context. */
  function MadeQueue(s: State, t: int, made: (int, int)): (int, int)
    requires Threads(s) && 0 <= t < |s.wants|
  {
    if s.que[t].pc == Make && s.ctx[t].error != SUCCESS then (s.queue.obj, s.ctx[t].error) else made
  }

  function Step(s: State, t: int, made: (int, int)): (s': State)
    requires Threads(s) && 0 <= t < |s.wants|
    ensures Threads(s') && s'.wants == s.wants
  {
    if InContext(s, t) then
      var (cell, call) := Advance(s.context, s.ctx[t], t, made);
      s.(context := cell, ctx := s.ctx[t := call])
    else
      var (cell, call) := Advance(s.queue, s.que[t], t, MadeQueue(s, t, made));
      s.(queue := cell, que := s.que[t := call])
  }

  predicate Initial(s: State) {
    && Threads(s)
    && s.context == Cell(NOT_INITIALIZED, NULL, SUCCESS, -1, [])
    && s.queue == Cell(NOT_INITIALIZED, NULL, SUCCESS, -1, [])
    && forall t :: 0 <= t < |s.wants| ==> s.ctx[t].pc == Cas && s.que[t].pc == Cas
  }

  predicate Finished(s: State, t: int)
    requires Threads(s) && 0 <= t < |s.wants|
  {
    if s.wants[t] then s.que[t].pc == Returned else s.ctx[t].pc == Returned
  }

  /** What a finished thread got: the object and the error. */
  function Result(s: State, t: int): (int, int)
    requires Threads(s) && 0 <= t < |s.wants|
  {
    if s.wants[t] then (s.que[t].obj, s.que[t].error) else (s.ctx[t].obj, s.ctx[t].error)
  }

  // ---------- safety ----------

  predicate Owner(call: Call) {
    call.pc == Make || call.pc == StoreError || call.pc == Publish
  }

  predicate Waiting(call: Call) {
    call.pc == Cas || call.pc == Spin
  }

  predicate OwnerInv(cell: Cell, call: Call) {
    match call.pc
    case Make => cell.made == []
    case StoreError => cell.made == [(cell.obj, call.error)]
    case Publish => cell.made == [(cell.obj, cell.err)]
    case _ => false
  }

  predicate ReaderInv(cell: Cell, call: Call) {
    match call.pc
    case ReadObject => call.error == cell.err
    case Returned => call.error == cell.err && call.obj == cell.obj
    case _ => !Owner(call)
  }

  ghost predicate CellInv(cell: Cell, calls: seq<Call>) {
    && (cell.flag == NOT_INITIALIZED || cell.flag == BEING_INITIALIZED || cell.flag == INITIALIZED)
    && (cell.flag == NOT_INITIALIZED ==> cell.made == [] && forall t :: 0 <= t < |calls| ==> calls[t].pc == Cas)
    && (cell.flag == BEING_INITIALIZED ==>
        && 0 <= cell.winner < |calls| && OwnerInv(cell, calls[cell.winner])
        && forall t :: 0 <= t < |calls| && t != cell.winner ==> Waiting(calls[t]))
    && (cell.flag == INITIALIZED ==>
        cell.made == [(cell.obj, cell.err)] && forall t :: 0 <= t < |calls| ==> ReaderInv(cell, calls[t]))
  }

  lemma AdvanceKeeps(cell: Cell, calls: seq<Call>, t: int, made: (int, int))
    requires CellInv(cell, calls) && 0 <= t < |calls|
    ensures var (cell', call') := Advance(cell, calls[t], t, made);
            && CellInv(cell', calls[t := call'])
            && (cell.flag == cell'.flag
                || (cell.flag == NOT_INITIALIZED && cell'.flag == BEING_INITIALIZED)
                || (cell.flag == BEING_INITIALIZED && cell'.flag == INITIALIZED))
            && cell.made <= cell'.made
            && (cell.flag == INITIALIZED ==> cell' == cell)
  {
  }

  /** How a thread's two calls hang together. */
  predicate NestInv(s: State, t: int)
    requires Threads(s) && 0 <= t < |s.wants|
  {
    if s.wants[t] then
      && (s.ctx[t].pc == Cas || !Waiting(s.que[t]))
      && (s.ctx[t].pc == Cas || s.ctx[t].pc == Returned || s.que[t].pc == Make)
      && (s.que[t].pc == StoreError || s.que[t].pc == Publish ==> s.ctx[t].pc == Returned)
    else s.que[t].pc == Cas
  }

  ghost predicate Inv(s: State) {
    && Threads(s) && CellInv(s.context, s.ctx) && CellInv(s.queue, s.que)
    && (forall t :: 0 <= t < |s.wants| ==> NestInv(s, t))
    && (s.queue.made == [] ==> s.queue.obj == NULL)
    && (s.queue.made != [] ==> s.context.flag == INITIALIZED
                               && (s.context.err != SUCCESS ==> s.queue.made[0] == (NULL, s.context.err)))
  }

  lemma InitialInv(s: State)
    requires Initial(s)
    ensures Inv(s)
  {
  }

  lemma StepKeeps(s: State, t: int, made: (int, int))
    requires Inv(s) && 0 <= t < |s.wants|
    ensures Inv(Step(s, t, made))
  {
    var s' := Step(s, t, made);
    if InContext(s, t) {
      AdvanceKeeps(s.context, s.ctx, t, made);
      assert s'.que == s.que && s'.queue == s.queue;
    } else {
      AdvanceKeeps(s.queue, s.que, t, MadeQueue(s, t, made));
      assert s'.ctx == s.ctx && s'.context == s.context;
    }
    forall u | 0 <= u < |s.wants| ensures NestInv(s', u) {
      assert NestInv(s, u);
      if u != t {
        assert s'.ctx[u] == s.ctx[u] && s'.que[u] == s.que[u];
      }
    }
  }

  /** A run: any thread steps at any time, and an initialiser makes anything. */
  ghost predicate Follows(s: State, s': State) {
    Threads(s) && exists t: int, made: (int, int) :: 0 <= t < |s.wants| && s' == Step(s, t, made)
  }

  ghost predicate Run(trace: seq<State>) {
    && trace != [] && Initial(trace[0])
    && forall i :: 0 <= i < |trace| - 1 ==> Follows(trace[i], trace[i + 1])
  }

  /** What one step may change in a cell and in the results. */
  ghost predicate Progress(s: State, s': State) {
    && Inv(s) && Inv(s') && s'.wants == s.wants
    && s.context.flag <= s'.context.flag && s.queue.flag <= s'.queue.flag
    && s.context.made <= s'.context.made && s.queue.made <= s'.queue.made
    && (s.context.flag == INITIALIZED ==> s'.context == s.context)
    && (s.queue.flag == INITIALIZED ==> s'.queue == s.queue)
    && forall t :: 0 <= t < |s.wants| && Finished(s, t) ==> Finished(s', t) && Result(s', t) == Result(s, t)
  }

  lemma StepProgress(s: State, t: int, made: (int, int))
    requires Inv(s) && 0 <= t < |s.wants|
    ensures Progress(s, Step(s, t, made))
  {
    StepKeeps(s, t, made);
    if InContext(s, t) {
      AdvanceKeeps(s.context, s.ctx, t, made);
    } else {
      AdvanceKeeps(s.queue, s.que, t, MadeQueue(s, t, made));
    }
  }

  /** Along a run nothing is undone: the states go 1, 2, 4, an initialiser that has
      run stays the only one, and a returned result stays. */
  lemma {:induction false} RunProgress(trace: seq<State>, i: nat, j: nat)
    requires Run(trace) && i <= j < |trace|
    ensures Progress(trace[i], trace[j])
    decreases j
  {
    if j == 0 {
      InitialInv(trace[0]);
    } else if i < j {
      RunProgress(trace, i, j - 1);
      assert Follows(trace[j - 1], trace[j]);
      var t: int, made: (int, int) :| 0 <= t < |trace[j - 1].wants| && trace[j] == Step(trace[j - 1], t, made);
      StepProgress(trace[j - 1], t, made);
    } else {
      RunProgress(trace, j - 1, j - 1);
      assert Follows(trace[j - 1], trace[j]);
      var t: int, made: (int, int) :| 0 <= t < |trace[j - 1].wants| && trace[j] == Step(trace[j - 1], t, made);
      StepProgress(trace[j - 1], t, made);
    }
  }

  function CellOf(s: State, queue: bool): Cell {
    if queue then s.queue else s.context
  }

  /** All callers of one getDefault, whenever they return, return the same pair: that
      of the only run of its initialiser, which has been published by then. */
  lemma SameDefaultForAll(trace: seq<State>, i: nat, t: int, j: nat, u: int)
    requires Run(trace) && i < |trace| && j < |trace|
    requires 0 <= t < |trace[0].wants| && 0 <= u < |trace[0].wants|
    ensures Threads(trace[i]) && Threads(trace[j]) && trace[i].wants == trace[j].wants == trace[0].wants
    ensures |CellOf(trace[i], true).made| <= 1 && |CellOf(trace[i], false).made| <= 1
    ensures var queue := trace[0].wants[t];
            Finished(trace[i], t) && Finished(trace[j], u) && trace[0].wants[u] == queue ==>
              && Result(trace[i], t) == Result(trace[j], u)
              && CellOf(trace[i], queue).flag == INITIALIZED && CellOf(trace[i], queue).made == [Result(trace[i], t)]
  {
    RunProgress(trace, 0, i);
    RunProgress(trace, 0, j);
    if i <= j {
      RunProgress(trace, i, j);
    } else {
      RunProgress(trace, j, i);
    }
    OneMade(trace[i]);
    if Finished(trace[i], t) {
      FinishedResult(trace[i], t);
    }
    if Finished(trace[j], u) {
      FinishedResult(trace[j], u);
    }
  }

  lemma OneMade(s: State)
    requires Inv(s)
    ensures |s.context.made| <= 1 && |s.queue.made| <= 1
  {
  }

  lemma FinishedResult(s: State, t: int)
    requires Inv(s) && 0 <= t < |s.wants| && Finished(s, t)
    ensures var cell := CellOf(s, s.wants[t]);
            cell.flag == INITIALIZED && cell.made == [Result(s, t)]
  {
  }

  /** A failed context fails every default queue, with its error and no object. */
  lemma FailedContextFailsQueue(trace: seq<State>, i: nat, t: int)
    requires Run(trace) && i < |trace|
    requires Threads(trace[i]) && 0 <= t < |trace[i].wants| && trace[i].wants[t] && Finished(trace[i], t)
    ensures trace[i].context.flag == INITIALIZED
    ensures trace[i].context.err != SUCCESS ==> Result(trace[i], t) == (NULL, trace[i].context.err)
  {
    RunProgress(trace, i, i);
    FinishedResult(trace[i], t);
  }

  // ---------- progress ----------

  /** Thread `t` would spin: it waits for another thread to publish. */
  predicate Blocked(s: State, t: int)
    requires Threads(s) && 0 <= t < |s.wants|
  {
    if InContext(s, t) then s.ctx[t].pc == Spin && s.context.flag != INITIALIZED
    else s.que[t].pc == Spin && s.queue.flag != INITIALIZED
  }

  /** Thread `t` can do something other than spin. */
  predicate Ready(s: State, t: int)
    requires Threads(s) && 0 <= t < |s.wants|
  {
    !Finished(s, t) && !Blocked(s, t)
  }

  function Rank(pc: Pc): nat {
    match pc
    case Cas => 7
    case Spin => 6
    case Make => 6
    case StoreError => 5
    case Publish => 4
    case ReadError => 3
    case ReadObject => 2
    case Returned => 0
  }

  /** The steps left, spinning not counted (an upper bound). */
  function Measure(calls: seq<Call>): nat {
    if calls == [] then 0 else Rank(calls[0].pc) + Measure(calls[1..])
  }

  lemma {:induction false} MeasureUpdate(calls: seq<Call>, t: nat, call: Call)
    requires t < |calls|
    ensures Measure(calls[t := call]) == Measure(calls) - Rank(calls[t].pc) + Rank(call.pc)
  {
    var calls' := calls[t := call];
    if t == 0 {
      assert calls'[1..] == calls[1..];
    } else {
      MeasureUpdate(calls[1..], t - 1, call);
      assert calls'[1..] == calls[1..][t - 1 := call];
    }
  }

  lemma {:induction false} MeasureBound(calls: seq<Call>)
    ensures Measure(calls) <= 7 * |calls|
  {
    if calls != [] {
      MeasureBound(calls[1..]);
    }
  }

  function Left(s: State): nat {
    Measure(s.ctx) + Measure(s.que)
  }

  lemma AdvanceRank(cell: Cell, call: Call, t: int, made: (int, int))
    requires cell.flag == NOT_INITIALIZED || cell.flag == BEING_INITIALIZED || cell.flag == INITIALIZED
    ensures var (cell', call') := Advance(cell, call, t, made);
            if call.pc == Returned || (call.pc == Spin && cell.flag != INITIALIZED) then cell' == cell && call' == call
            else Rank(call'.pc) < Rank(call.pc)
  {
  }

  /** A ready thread's step uses up one of finitely many; any other step changes nothing. */
  lemma StepCounts(s: State, t: int, made: (int, int))
    requires Inv(s) && 0 <= t < |s.wants|
    ensures Ready(s, t) ==> Left(Step(s, t, made)) < Left(s)
    ensures !Ready(s, t) ==> Step(s, t, made) == s
  {
    var s' := Step(s, t, made);
    hide Advance, Rank;
    if InContext(s, t) {
      AdvanceRank(s.context, s.ctx[t], t, made);
      MeasureUpdate(s.ctx, t, s'.ctx[t]);
      assert s.ctx[t := s.ctx[t]] == s.ctx;
    } else {
      AdvanceRank(s.queue, s.que[t], t, MadeQueue(s, t, made));
      MeasureUpdate(s.que, t, s'.que[t]);
      assert s.que[t := s.que[t]] == s.que;
    }
  }

  /** No deadlock, however the two protocols are nested: while some thread has not
      returned, some thread can make a step that is not spinning. */
  lemma SomeoneIsReady(s: State, t: int)
    requires Inv(s) && 0 <= t < |s.wants| && !Finished(s, t)
    ensures exists u :: 0 <= u < |s.wants| && Ready(s, u)
  {
    if Blocked(s, t) {
      if !InContext(s, t) {
        var w := s.queue.winner;
        assert NestInv(s, w);
        if Blocked(s, w) {
          ContextWinnerReady(s);
        } else {
          assert Ready(s, w);
        }
      } else {
        ContextWinnerReady(s);
      }
    } else {
      assert Ready(s, t);
    }
  }

  lemma ContextWinnerReady(s: State)
    requires Inv(s) && s.context.flag == BEING_INITIALIZED
    ensures 0 <= s.context.winner < |s.wants| && Ready(s, s.context.winner)
  {
    assert NestInv(s, s.context.winner);
  }

  /** A thread that can step stays able to while others step. */
  lemma ReadyStays(s: State, t: int, u: int, made: (int, int))
    requires Inv(s) && 0 <= t < |s.wants| && 0 <= u < |s.wants| && t != u && Ready(s, t)
    ensures Ready(Step(s, u, made), t)
  {
  }

  /** An endless schedule; a thread that has returned or spins may be scheduled too. */
  ghost predicate Schedule(run: nat -> State, who: nat -> int, made: nat -> (int, int)) {
    && Initial(run(0))
    && forall i: nat :: 0 <= who(i) < |run(0).wants| && Threads(run(i)) && |run(i).wants| == |run(0).wants|
                        && run(i + 1) == Step(run(i), who(i), made(i))
  }

  /** Every thread is scheduled again and again. */
  ghost predicate Fair(run: nat -> State, who: nat -> int) {
    forall t, i: nat {:trigger ScheduledAfter(who, t, i)} :: 0 <= t < |run(0).wants| ==> ScheduledAfter(who, t, i)
  }

  ghost predicate ScheduledAfter(who: nat -> int, t: int, i: nat) {
    exists j: nat :: i <= j && who(j) == t
  }

  lemma {:induction false} ScheduleInv(run: nat -> State, who: nat -> int, made: nat -> (int, int), i: nat)
    requires Schedule(run, who, made)
    ensures Inv(run(i)) && |run(i).wants| == |run(0).wants|
  {
    if i == 0 {
      InitialInv(run(0));
    } else {
      ScheduleInv(run, who, made, i - 1);
      assert run(i - 1 + 1) == Step(run(i - 1), who(i - 1), made(i - 1));
      StepKeeps(run(i - 1), who(i - 1), made(i - 1));
    }
  }

  lemma {:induction false} ScheduleProgress(run: nat -> State, who: nat -> int, made: nat -> (int, int), i: nat, k: nat)
    requires Schedule(run, who, made) && i <= k
    ensures Progress(run(i), run(k))
    decreases k
  {
    ScheduleInv(run, who, made, i);
    if i < k {
      ScheduleProgress(run, who, made, i, k - 1);
      assert run(k - 1 + 1) == Step(run(k - 1), who(k - 1), made(k - 1));
      StepProgress(run(k - 1), who(k - 1), made(k - 1));
    }
  }

  /** The next step of thread `t` runs the initialiser of the default queue or context. */
  predicate Makes(s: State, t: int, queue: bool)
    requires Threads(s) && 0 <= t < |s.wants|
  {
    if queue then !InContext(s, t) && s.que[t].pc == Make else InContext(s, t) && s.ctx[t].pc == Make
  }

  /** What every caller gets is what the initialiser made when it ran -- for a queue,
      provided that the context it asked for had been made; if not, no object and the
      context's error. */
  lemma GetsWhatWasMade(run: nat -> State, who: nat -> int, made: nat -> (int, int), i: nat, k: nat, u: int)
    requires Schedule(run, who, made) && i < k && 0 <= u < |run(0).wants|
    requires Threads(run(i)) && Threads(run(k)) && |run(i).wants| == |run(k).wants| == |run(0).wants|
    requires Makes(run(i), who(i), run(k).wants[u]) && Finished(run(k), u)
    ensures !run(k).wants[u] ==> Result(run(k), u) == made(i)
    ensures run(k).wants[u] && run(i).ctx[who(i)].error == SUCCESS ==> Result(run(k), u) == made(i)
    ensures run(k).wants[u] && run(i).ctx[who(i)].error != SUCCESS ==>
              Result(run(k), u) == (NULL, run(i).ctx[who(i)].error)
  {
    var queue := run(k).wants[u];
    ScheduleInv(run, who, made, i);
    ScheduleProgress(run, who, made, i + 1, k);
    assert run(i + 1) == Step(run(i), who(i), made(i));
    MakeLogs(run(i), who(i), made(i), queue);
    FinishedResult(run(k), u);
    var log, log' := CellOf(run(i + 1), queue).made, CellOf(run(k), queue).made;
    assert log <= log' && log' == [Result(run(k), u)];
    assert log[0] == log'[0];
  }

  lemma MakeLogs(s: State, t: int, made: (int, int), queue: bool)
    requires Inv(s) && 0 <= t < |s.wants| && Makes(s, t, queue)
    ensures CellOf(Step(s, t, made), queue).made
         == [if queue && s.ctx[t].error != SUCCESS then (NULL, s.ctx[t].error) else made]
  {
  }

  /** The initialiser runs once, whoever calls. */
  lemma MakesOnce(run: nat -> State, who: nat -> int, made: nat -> (int, int), i: nat, k: nat, queue: bool)
    requires Schedule(run, who, made) && Threads(run(i)) && Threads(run(k))
    requires |run(i).wants| == |run(k).wants| == |run(0).wants|
    requires Makes(run(i), who(i), queue) && Makes(run(k), who(k), queue)
    ensures i == k
  {
    if i != k {
      var first, second := if i < k then i else k, if i < k then k else i;
      ScheduleInv(run, who, made, first);
      ScheduleInv(run, who, made, second);
      ScheduleProgress(run, who, made, first + 1, second);
      assert run(first + 1) == Step(run(first), who(first), made(first));
      MakeLogs(run(first), who(first), made(first), queue);
      NotMadeYet(run(second), who(second), queue);
    }
  }

  lemma NotMadeYet(s: State, t: int, queue: bool)
    requires Inv(s) && 0 <= t < |s.wants| && Makes(s, t, queue)
    ensures CellOf(s, queue).made == []
  {
  }

  /** And it has been made: nobody returns before the initialiser has run. */
  lemma {:induction false} MadeBefore(run: nat -> State, who: nat -> int, made: nat -> (int, int), k: nat, queue: bool)
    requires Schedule(run, who, made) && CellOf(run(k), queue).made != []
    ensures exists i: nat :: i < k && Threads(run(i)) && 0 <= who(i) < |run(i).wants| && Makes(run(i), who(i), queue)
  {
    if k > 0 {
      ScheduleInv(run, who, made, k - 1);
      assert run(k - 1 + 1) == Step(run(k - 1), who(k - 1), made(k - 1));
      if CellOf(run(k - 1), queue).made != [] {
        MadeBefore(run, who, made, k - 1, queue);
      } else {
        assert Makes(run(k - 1), who(k - 1), queue);
      }
    }
  }

  lemma ReturnsAfterMaking(run: nat -> State, who: nat -> int, made: nat -> (int, int), k: nat, u: int)
    requires Schedule(run, who, made) && Threads(run(k)) && 0 <= u < |run(k).wants| && Finished(run(k), u)
    ensures exists i: nat :: && i < k && Threads(run(i)) && 0 <= who(i) < |run(i).wants|
                             && Makes(run(i), who(i), run(k).wants[u])
  {
    ScheduleInv(run, who, made, k);
    FinishedResult(run(k), u);
    MadeBefore(run, who, made, k, run(k).wants[u]);
  }

  /** How many of the first `n` steps were not spinning or idling. */
  ghost function Moves(run: nat -> State, who: nat -> int, n: nat): nat {
    if n == 0 then 0
    else
      var s, t := run(n - 1), who(n - 1);
      Moves(run, who, n - 1) + if Threads(s) && 0 <= t < |s.wants| && Ready(s, t) then 1 else 0
  }

  /** Whatever the schedule, fair or not, N threads take at most 14 N steps other than
      spinning, however long they go on. */
  lemma {:induction false} MovesBounded(run: nat -> State, who: nat -> int, made: nat -> (int, int), n: nat)
    requires Schedule(run, who, made)
    ensures Moves(run, who, n) + Left(run(n)) <= Left(run(0)) <= 14 * |run(0).wants|
  {
    if n == 0 {
      MeasureBound(run(0).ctx);
      MeasureBound(run(0).que);
    } else {
      MovesBounded(run, who, made, n - 1);
      ScheduleInv(run, who, made, n - 1);
      StepCounts(run(n - 1), who(n - 1), made(n - 1));
      assert run(n - 1 + 1) == Step(run(n - 1), who(n - 1), made(n - 1));
    }
  }

  /** If `t` is ready and will be scheduled at `j`, then by then something has moved. */
  lemma {:induction false} MovesBy(run: nat -> State, who: nat -> int, made: nat -> (int, int), t: int, i: nat, j: nat)
    requires Schedule(run, who, made) && i <= j && who(j) == t
    requires Threads(run(i)) && 0 <= t < |run(i).wants| && Ready(run(i), t)
    ensures exists k: nat :: i < k && Left(run(k)) < Left(run(i))
    decreases j - i
  {
    ScheduleInv(run, who, made, i);
    StepCounts(run(i), who(i), made(i));
    assert run(i + 1) == Step(run(i), who(i), made(i));
    if !Ready(run(i), who(i)) {
      MovesBy(run, who, made, t, i + 1, j);
    }
  }

  /** Under a fair schedule every thread's call returns. */
  lemma {:induction false} AllReturn(run: nat -> State, who: nat -> int, made: nat -> (int, int), i: nat)
    requires Schedule(run, who, made) && Fair(run, who)
    ensures exists k: nat :: i <= k && Threads(run(k)) && forall t :: 0 <= t < |run(k).wants| ==> Finished(run(k), t)
    decreases Left(run(i))
  {
    ScheduleInv(run, who, made, i);
    if t :| 0 <= t < |run(i).wants| && !Finished(run(i), t) {
      SomeoneIsReady(run(i), t);
      var u :| 0 <= u < |run(i).wants| && Ready(run(i), u);
      assert ScheduledAfter(who, u, i);
      var j: nat :| i <= j && who(j) == u;
      MovesBy(run, who, made, u, i, j);
      var k: nat :| i < k && Left(run(k)) < Left(run(i));
      AllReturn(run, who, made, k);
    }
  }
}
