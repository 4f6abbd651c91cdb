/**
  What every run of the hierarchical state machine keeps: popping restores the StateValues, and the OnEnter
  and OnExit calls are properly nested around the states on the stack.
*/
module HsmRuns {
  import opened StateValues
  import opened Hsm
  import opened Wrappers

  // ---------------------------------------------------------------------------------------------
  // Undo

  /** Popping to depth d would restore the values that held just before the state at depth d was created. */
  ghost predicate UndoOk<V>(s: Snap<V>) {
    && Valid(s)
    && forall d | 0 <= d < |s.stack| :: Undo(s.values, Logs(s.stack), d) == s.stack[d].before
  }

  lemma {:induction false} SetKeepsUndo<V>(s: Snap<V>, w: Write<V>)
    requires UndoOk(s) && s.stack != [] && w.slot < |s.values|
    ensures UndoOk(SetByInnermost(s, w))
  {
    var t, k, logs := SetByInnermost(s, w), |s.stack| - 1, Logs(s.stack);
    WriteKeepsUndoExactly(s.values, logs, k, w.slot, w.value);
    assert Logs(t.stack) == BindAt(logs, s.values, k, w.slot);
    forall d | 0 <= d < |t.stack|
      ensures Undo(t.values, Logs(t.stack), d) == t.stack[d].before
    {
      assert Undo(s.values[w.slot := w.value], BindAt(logs, s.values, k, w.slot), d) == Undo(s.values, logs, d);
    }
  }

  lemma {:induction false} SetAllKeepsUndo<V>(s: Snap<V>, writes: seq<Write<V>>)
    requires UndoOk(s) && s.stack != [] && WritesInRange(writes, |s.values|)
    ensures UndoOk(SetAll(s, writes))
    decreases |writes|
  {
    if writes != [] {
      SetKeepsUndo(s, writes[0]);
      SetAllKeepsUndo(SetByInnermost(s, writes[0]), writes[1..]);
    }
  }

  /** Destroying the innermost state restores what held before it was created, whatever its OnExit set. */
  lemma PopRestores<V(!new)>(s: Snap<V>, cb: Callbacks<V>)
    requires UndoOk(s) && s.stack != [] && InBounds(cb)
    ensures UndoOk(Pop(s, cb))
    ensures Pop(s, cb).values == s.stack[|s.stack| - 1].before
  {
    var k := |s.stack| - 1;
    var u := SetAll(s, cb.onExit(s.stack[k].typeId, s.values));
    SetAllKeepsUndo(s, cb.onExit(s.stack[k].typeId, s.values));
    var t, logs := Pop(s, cb), Logs(u.stack);
    UndoOneLevel(u.values, logs, k);
    assert Undo(u.values, logs, k) == u.stack[k].before;
    assert u.stack[k].before == u.stack[k].(log := []).before;
    assert Logs(t.stack) == logs[..k];
    forall d | 0 <= d < k
      ensures Undo(t.values, Logs(t.stack), d) == t.stack[d].before
    {
      assert Undo(u.values, logs, d) == u.stack[d].before;
      assert u.stack[d] == u.stack[..k][d];
    }
  }

  /** Popping to depth d restores exactly the values that held just before the state at depth d was created. */
  lemma {:induction false} PopToRestores<V(!new)>(s: Snap<V>, d: nat, cb: Callbacks<V>)
    requires UndoOk(s) && InBounds(cb)
    ensures UndoOk(PopTo(s, d, cb))
    ensures d < |s.stack| ==> PopTo(s, d, cb).values == s.stack[d].before
    ensures d >= |s.stack| ==> PopTo(s, d, cb) == s
    decreases |s.stack|
  {
    if d < |s.stack| {
      PopRestores(s, cb);
      var t := Pop(s, cb);
      PopToRestores(t, d, cb);
      assert d < |t.stack| ==> t.stack[d] == s.stack[d];
    }
  }

  lemma PushKeepsUndo<V(!new)>(s: Snap<V>, target: Target, cb: Callbacks<V>)
    requires UndoOk(s) && InBounds(cb)
    ensures UndoOk(Push(s, target, cb))
  {
    var k := |s.stack|;
    var t := Created(s, target);
    var logs := Logs(t.stack);
    assert logs[k] == [] && logs[..k] == Logs(s.stack);
    assert Reset(s.values, logs[k]) == s.values;
    UndoOneLevel(s.values, logs, k);
    forall d | 0 <= d < |t.stack|
      ensures Undo(t.values, logs, d) == t.stack[d].before
    {
      if d < k { assert t.stack[d] == s.stack[d]; }
    }
    SetAllKeepsUndo(t, cb.onEnter(target, s.values));
  }

  lemma PerformKeepsUndo<V(!new)>(s: Snap<V>, d: nat, t: Transition, cb: Callbacks<V>)
    requires UndoOk(s) && InBounds(cb) && d < |s.stack| && !t.No?
    ensures UndoOk(Perform(s, d, t, cb))
  {
    PopToRestores(s, Kept(d, t), cb);
    PushKeepsUndo(PopTo(s, Kept(d, t), cb), t.target, cb);
  }

  /** The values underneath the whole stack: what Stop would restore. */
  function Base<V>(s: Snap<V>): seq<V> { if s.stack == [] then s.values else s.stack[0].before }

  lemma PushKeepsBase<V(!new)>(s: Snap<V>, target: Target, cb: Callbacks<V>)
    requires Valid(s) && InBounds(cb)
    ensures Base(Push(s, target, cb)) == Base(s)
  {
    var t := Push(s, target, cb);
    if s.stack == [] {
      assert t.stack[0].before == t.stack[0].(log := []).before;
    } else {
      assert t.stack[0] == t.stack[..|s.stack|][0];
    }
  }

  lemma PopToKeepsBase<V(!new)>(s: Snap<V>, d: nat, cb: Callbacks<V>)
    requires UndoOk(s) && InBounds(cb)
    ensures Base(PopTo(s, d, cb)) == Base(s)
  {
    PopToRestores(s, d, cb);
  }

  // ---------------------------------------------------------------------------------------------
  // Nesting of OnEnter and OnExit

  /** Reading a history as brackets: the entries still open, outermost first; None if it is not nested. */
  function Open(trace: seq<Event>): Option<seq<nat>> {
    if trace == [] then Some([])
    else
      match Open(trace[..|trace| - 1])
      case None => None
      case Some(open) =>
        match trace[|trace| - 1]
        case Enter(n) => Some(open + [n])
        case Exit(n) => if open != [] && open[|open| - 1] == n then Some(open[..|open| - 1]) else None
  }

  /** The states entered, in order. */
  function Entered(trace: seq<Event>): seq<nat> {
    if trace == [] then []
    else Entered(trace[..|trace| - 1]) + match trace[|trace| - 1] case Enter(n) => [n] case Exit(_) => []
  }

  /** Open entries are the stack, and every state made was entered exactly once, in the order of creation. */
  ghost predicate TraceOk<V>(s: Snap<V>) {
    && Open(s.trace) == Some(Serials(s.stack))
    && Entered(s.trace) == seq(s.created, i => i)
  }

  lemma PopKeepsTrace<V(!new)>(s: Snap<V>, cb: Callbacks<V>)
    requires Valid(s) && s.stack != [] && InBounds(cb) && TraceOk(s)
    ensures TraceOk(Pop(s, cb))
  {
    var t := Pop(s, cb);
    assert t.trace[..|t.trace| - 1] == s.trace;
    assert Serials(t.stack) == Serials(s.stack)[..|s.stack| - 1];
    assert Entered(s.trace) + [] == Entered(s.trace);
  }

  lemma {:induction false} PopToKeepsTrace<V(!new)>(s: Snap<V>, d: nat, cb: Callbacks<V>)
    requires Valid(s) && InBounds(cb) && TraceOk(s)
    ensures TraceOk(PopTo(s, d, cb))
    decreases |s.stack|
  {
    if d < |s.stack| {
      PopKeepsTrace(s, cb);
      PopToKeepsTrace(Pop(s, cb), d, cb);
    }
  }

  lemma PushKeepsTrace<V(!new)>(s: Snap<V>, target: Target, cb: Callbacks<V>)
    requires Valid(s) && InBounds(cb) && TraceOk(s)
    ensures TraceOk(Push(s, target, cb))
  {
    hide Push;
    var t := Push(s, target, cb);
    assert t.trace[..|t.trace| - 1] == s.trace;
    var k := |s.stack|;
    assert t.stack[k].serial == t.stack[k].(log := []).serial;
    assert forall i | 0 <= i < k :: t.stack[i] == t.stack[..k][i];
    assert Serials(t.stack) == Serials(s.stack) + [s.created];
    assert seq(s.created + 1, i => i) == seq(s.created, i => i) + [s.created];
  }

  // ---------------------------------------------------------------------------------------------
  // Whole runs

  ghost predicate Sound<V>(s: Snap<V>) { UndoOk(s) && TraceOk(s) }

  /** The number of passes after which ProcessStateTransitions gives up. */
  const MAX_PASSES: nat := 1000

  /**
    The loop of ProcessStateTransitions from pass number i on. The second result is false when the check
    for an infinite loop of transitions fails.
  */
  function Passes<V(!new)>(s: Snap<V>, asks: nat -> Answers, i: nat, cb: Callbacks<V>): (r: (Snap<V>, bool))
    requires Valid(s) && InBounds(cb) && i < MAX_PASSES
    ensures Valid(r.0) && |r.0.values| == |s.values|
    decreases MAX_PASSES - i
  {
    var (t, made) := Pass(s, asks(i), cb);
    if i + 1 >= MAX_PASSES then (t, false)
    else if made then Passes(t, asks, i + 1, cb)
    else (t, true)
  }

  /** One iteration of the loop. */
  lemma PassesStep<V(!new)>(s: Snap<V>, asks: nat -> Answers, i: nat, cb: Callbacks<V>)
    requires Valid(s) && InBounds(cb) && i < MAX_PASSES
    ensures var (t, made) := Pass(s, asks(i), cb);
            Passes(s, asks, i, cb) == if i + 1 >= MAX_PASSES then (t, false)
                                      else if made then Passes(t, asks, i + 1, cb)
                                      else (t, true)
  {
  }

  /** The machine as ProcessStateTransitions finds it after pushing the initial state if it must. */
  function Started<V(!new)>(s: Snap<V>, initial: Target, cb: Callbacks<V>): (t: Snap<V>)
    requires Valid(s) && InBounds(cb)
    ensures Valid(t) && |t.values| == |s.values| && t.stack != []
    ensures s.stack != [] ==> t == s
    ensures s.stack == [] ==> |t.stack| == 1 && t.stack[0].typeId == initial.typeId
  {
    if s.stack == [] then Push(s, initial, cb) else s
  }

  /** ProcessStateTransitions: the initial state first if the stack is empty, then the passes. */
  function Process<V(!new)>(s: Snap<V>, initial: Target, asks: nat -> Answers, cb: Callbacks<V>): (r: (Snap<V>, bool))
    requires Valid(s) && InBounds(cb)
    ensures Valid(r.0) && |r.0.values| == |s.values|
  {
    Passes(Started(s, initial, cb), asks, 0, cb)
  }

  lemma PassKeepsSound<V(!new)>(s: Snap<V>, ask: Answers, cb: Callbacks<V>)
    requires Sound(s) && InBounds(cb)
    ensures Sound(Pass(s, ask, cb).0) && Base(Pass(s, ask, cb).0) == Base(s)
  {
    var d := FirstEffective(s.stack, ask, 0);
    if d < |s.stack| {
      var kept, target := Kept(d, ask(d)), ask(d).target;
      var u := PopTo(s, kept, cb);
      PerformKeepsUndo(s, d, ask(d), cb);
      PopToKeepsTrace(s, kept, cb);
      PushKeepsTrace(u, target, cb);
      PopToKeepsBase(s, kept, cb);
      PushKeepsBase(u, target, cb);
    }
  }

  lemma {:induction false} PassesKeepSound<V(!new)>(s: Snap<V>, asks: nat -> Answers, i: nat, cb: Callbacks<V>)
    requires Sound(s) && InBounds(cb) && i < MAX_PASSES
    ensures Sound(Passes(s, asks, i, cb).0) && Base(Passes(s, asks, i, cb).0) == Base(s)
    decreases MAX_PASSES - i
  {
    hide Pass, Undo, TraceOk;
    PassKeepsSound(s, asks(i), cb);
    var (t, made) := Pass(s, asks(i), cb);
    if i + 1 < MAX_PASSES && made {
      PassesKeepSound(t, asks, i + 1, cb);
    }
  }

  /** The number of the last pass that the loop makes. */
  function LastPass<V(!new)>(s: Snap<V>, asks: nat -> Answers, i: nat, cb: Callbacks<V>): (last: nat)
    requires Valid(s) && InBounds(cb) && i < MAX_PASSES
    ensures i <= last < MAX_PASSES
    decreases MAX_PASSES - i
  {
    var (t, made) := Pass(s, asks(i), cb);
    if i + 1 < MAX_PASSES && made then LastPass(t, asks, i + 1, cb) else i
  }

  /** One pass after the other, each made on what the one before has left, by the answers of its number. */
  ghost predicate ArePasses<V(!new)>(states: seq<Snap<V>>, asks: nat -> Answers, i: nat, cb: Callbacks<V>) {
    && InBounds(cb)
    && (forall k | 0 <= k < |states| :: Valid(states[k]))
    && (forall k, m | 0 <= k < |states| && m < |states| && m == k + 1 ::
          states[m] == Pass(states[k], asks(i + k), cb).0)
    && (forall k | 0 <= k < |states| - 2 :: Pass(states[k], asks(i + k), cb).1)
  }

  lemma PassesPrepended<V(!new)>(s: Snap<V>, later: seq<Snap<V>>, asks: nat -> Answers, i: nat, cb: Callbacks<V>)
    requires Valid(s) && ArePasses(later, asks, i + 1, cb) && |later| >= 2
    requires later[0] == Pass(s, asks(i), cb).0 && Pass(s, asks(i), cb).1
    ensures ArePasses([s] + later, asks, i, cb)
  {
    hide Pass;
    var states := [s] + later;
    forall k, m | 0 <= k < |states| && m < |states| && m == k + 1
      ensures states[m] == Pass(states[k], asks(i + k), cb).0
    {
      if k > 0 { assert states[m] == later[k] && states[k] == later[k - 1] && i + k == i + 1 + (k - 1); }
    }
    forall k | 0 <= k < |states| - 2
      ensures Pass(states[k], asks(i + k), cb).1
    {
      if k > 0 { assert states[k] == later[k - 1] && i + k == i + 1 + (k - 1); }
    }
  }

  /**
    The loop makes passes until one makes no transition, or until the thousandth, whatever that one does; all
    passes before the last make a transition.
  */
  lemma {:induction false} PassesAreSuccessive<V(!new)>(s: Snap<V>, asks: nat -> Answers, i: nat, cb: Callbacks<V>)
    returns (states: seq<Snap<V>>)
    requires Valid(s) && InBounds(cb) && i < MAX_PASSES
    ensures ArePasses(states, asks, i, cb)
    ensures |states| >= 2 && states[0] == s && states[|states| - 1] == Passes(s, asks, i, cb).0
    ensures var n := |states| - 1;
            && i + n <= 1000
            && (Passes(s, asks, i, cb).1 <==> i + n < 1000)
            && (i + n < 1000 ==> !Pass(states[n - 1], asks(i + n - 1), cb).1)
    decreases MAX_PASSES - i
  {
    hide Pass;
    var (t, made) := Pass(s, asks(i), cb);
    if i + 1 < MAX_PASSES && made {
      var later := PassesAreSuccessive(t, asks, i + 1, cb);
      PassesPrepended(s, later, asks, i, cb);
      states := [s] + later;
    } else {
      states := [s, t];
    }
  }

  /** What one pass does to the number of states created, and to a stack that is not empty. */
  lemma PassCounts<V(!new)>(s: Snap<V>, ask: Answers, cb: Callbacks<V>)
    requires Valid(s) && InBounds(cb)
    ensures var (t, made) := Pass(s, ask, cb);
            && t.created == s.created + (if made then 1 else 0)
            && (s.stack != [] ==> t.stack != [])
            && (!made ==> t == s && IsSettled(s.stack, ask))
            && (made ==> !IsSettled(s.stack, ask))
  {
    hide PopTo, Push, IsEffective;
  }

  /**
    The loop ends normally exactly when its last pass is not the one that fails the check; that pass found no
    effective request, and every pass before it made one transition, which created one state.
  */
  lemma {:induction false} PassesEndSettled<V(!new)>(s: Snap<V>, asks: nat -> Answers, i: nat, cb: Callbacks<V>)
    requires Valid(s) && InBounds(cb) && i < MAX_PASSES
    ensures var (t, ok), last := Passes(s, asks, i, cb), LastPass(s, asks, i, cb);
            && (ok <==> last < 999)
            && (ok ==> IsSettled(t.stack, asks(last)) && t.created == s.created + (last - i))
            && (s.stack != [] ==> t.stack != [])
            && t.created >= s.created
    decreases MAX_PASSES - i
  {
    hide Pass, IsSettled;
    PassCounts(s, asks(i), cb);
    var (t, made) := Pass(s, asks(i), cb);
    if i + 1 < MAX_PASSES && made {
      PassesEndSettled(t, asks, i + 1, cb);
    }
  }

  /** ProcessStateTransitions enters the initial state on an empty stack, and then makes its passes from number 0. */
  lemma ProcessMakesPasses<V(!new)>(s: Snap<V>, initial: Target, asks: nat -> Answers, cb: Callbacks<V>)
    returns (states: seq<Snap<V>>)
    requires Valid(s) && InBounds(cb)
    ensures ArePasses(states, asks, 0, cb)
    ensures |states| >= 2 && states[0] == if s.stack == [] then Push(s, initial, cb) else s
    ensures Process(s, initial, asks, cb) == (states[|states| - 1], |states| <= 1000)
  {
    hide Push, Pass;
    states := PassesAreSuccessive(Started(s, initial, cb), asks, 0, cb);
  }

  /**
    Once settled, always settled, and exactly then: after ProcessStateTransitions has ended normally, calling it
    again leaves the machine as it is (no OnEnter, no OnExit) if and only if the answers to its first pass ask
    for nothing new. The answers of the last pass before are such answers.
  */
  lemma SettledStaysSettled<V(!new)>(s: Snap<V>, initial: Target, asks: nat -> Answers, again: nat -> Answers,
                                     cb: Callbacks<V>)
    requires Valid(s) && InBounds(cb)
    ensures var (t, ok) := Process(s, initial, asks, cb);
            ok ==> && (Process(t, initial, again, cb) == (t, true) <==> IsSettled(t.stack, again(0)))
                   && IsSettled(t.stack, asks(LastPass(Started(s, initial, cb), asks, 0, cb)))
  {
    hide Pass, IsSettled, Passes, Push;
    PassesEndSettled(Started(s, initial, cb), asks, 0, cb);
    var (t, ok) := Process(s, initial, asks, cb);
    if ok {
      PassCounts(t, again(0), cb);
      PassesStep(t, again, 0, cb);
      if !IsSettled(t.stack, again(0)) {
        PassesEndSettled(Pass(t, again(0), cb).0, again, 1, cb);
      }
    }
  }

  datatype Step<V> =
    | ProcessTransitions(asks: nat -> Answers)
    | SetValue(write: Write<V>)                 // by the innermost state, in OnEnter's time or in Update
    | Stop

  predicate Possible<V>(s: Snap<V>, step: Step<V>) {
    step.SetValue? ==> s.stack != [] && step.write.slot < |s.values|
  }

  function Execute<V(!new)>(s: Snap<V>, step: Step<V>, initial: Target, cb: Callbacks<V>): (t: Snap<V>)
    requires Valid(s) && InBounds(cb) && Possible(s, step)
    ensures Valid(t)
  {
    match step
    case ProcessTransitions(asks) => Process(s, initial, asks, cb).0
    case SetValue(w) => SetByInnermost(s, w)
    case Stop => PopTo(s, 0, cb)
  }

  lemma ExecuteKeepsSound<V(!new)>(s: Snap<V>, step: Step<V>, initial: Target, cb: Callbacks<V>)
    requires Sound(s) && InBounds(cb) && Possible(s, step)
    ensures Sound(Execute(s, step, initial, cb)) && Base(Execute(s, step, initial, cb)) == Base(s)
  {
    hide Passes, PopTo, Push, Undo, Open, Entered;
    match step
    case ProcessTransitions(asks) =>
      if s.stack == [] {
        PushKeepsUndo(s, initial, cb);
        PushKeepsTrace(s, initial, cb);
        PushKeepsBase(s, initial, cb);
        PassesKeepSound(Push(s, initial, cb), asks, 0, cb);
      } else {
        PassesKeepSound(s, asks, 0, cb);
      }
    case SetValue(w) =>
      SetKeepsUndo(s, w);
      assert Serials(SetByInnermost(s, w).stack) == Serials(s.stack);
    case Stop =>
      PopToRestores(s, 0, cb);
      PopToKeepsTrace(s, 0, cb);
      PopToKeepsBase(s, 0, cb);
  }

  /** A run from a machine that has not been started, as the list of the snapshots it goes through. */
  ghost predicate IsRun<V(!new)>(run: seq<Snap<V>>, steps: seq<Step<V>>, initial: Target, cb: Callbacks<V>) {
    && InBounds(cb)
    && |run| == |steps| + 1
    && run[0].stack == [] && run[0].trace == [] && run[0].created == 0
    && forall i | 0 <= i < |steps| :: Leads(run[i], steps[i], run[i + 1], initial, cb)
  }

  ghost predicate Leads<V(!new)>(s: Snap<V>, step: Step<V>, t: Snap<V>, initial: Target, cb: Callbacks<V>)
    requires InBounds(cb)
  {
    Valid(s) && Possible(s, step) && t == Execute(s, step, initial, cb)
  }

  /** Every state that a run reaches is sound, and still has the initial values underneath its stack. */
  lemma {:induction false} RunsAreSound<V(!new)>(run: seq<Snap<V>>, steps: seq<Step<V>>, initial: Target,
                                                 cb: Callbacks<V>, k: nat)
    requires IsRun(run, steps, initial, cb) && k < |run|
    ensures Sound(run[k]) && Base(run[k]) == run[0].values
  {
    if k == 0 {
      assert Serials(run[0].stack) == [];
    } else {
      var i := k - 1;
      RunsAreSound(run, steps, initial, cb, i);
      assert Leads(run[i], steps[i], run[i + 1], initial, cb);
      ExecuteKeepsSound(run[i], steps[i], initial, cb);
    }
  }

  /** Stop, at any point of any run: the initial values are back and every OnEnter has had its OnExit. */
  lemma StopRestoresInitialValues<V(!new)>(run: seq<Snap<V>>, steps: seq<Step<V>>, initial: Target,
                                           cb: Callbacks<V>, k: nat)
    requires IsRun(run, steps, initial, cb) && k < |run|
    ensures Valid(run[k])
    ensures var stopped := PopTo(run[k], 0, cb);
            stopped.values == run[0].values && stopped.stack == [] && Open(stopped.trace) == Some([])
  {
    RunsAreSound(run, steps, initial, cb, k);
    PopToRestores(run[k], 0, cb);
    PopToKeepsTrace(run[k], 0, cb);
    assert Serials(PopTo(run[k], 0, cb).stack) == [];
  }
}
