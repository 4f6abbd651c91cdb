/**
  The hierarchical state machine of src/common/hsm.h as a value: the stack of states with their undo logs,
  the StateValues, and the history of OnEnter and OnExit calls. StateMachine.dfy refines these functions.
*/
module Hsm {
  import opened StateValues

  type TypeId = nat

  /** `args` stands for the arguments that a transition passes to OnEnter. */
  datatype Target = Target(typeId: TypeId, args: int)

  datatype Transition = No | Inner(target: Target) | InnerEntry(target: Target) | Sibling(target: Target)

  datatype Write<V> = Write(slot: nat, value: V)

  /** The SetStateValue calls that a state makes in OnEnter and in OnExit, from the values it can read. */
  datatype Callbacks<!V> = Callbacks(
    onEnter: (Target, seq<V>) -> seq<Write<V>>,
    onExit: (TypeId, seq<V>) -> seq<Write<V>>)

  predicate WritesInRange<V>(writes: seq<Write<V>>, n: nat) { forall i | 0 <= i < |writes| :: writes[i].slot < n }

  ghost predicate InBounds<V(!new)>(cb: Callbacks<V>) {
    && (forall t, values :: WritesInRange(cb.onEnter(t, values), |values|))
    && (forall t, values :: WritesInRange(cb.onExit(t, values), |values|))
  }

  /** A state on the stack; `before` is history: the StateValues just before the state was created. */
  datatype Frame<V> = Frame(typeId: TypeId, serial: nat, log: Log<V>, before: seq<V>)

  datatype Event = Enter(serial: nat) | Exit(serial: nat)

  datatype Snap<V> = Snap(stack: seq<Frame<V>>, values: seq<V>, trace: seq<Event>, created: nat)

  function Logs<V>(stack: seq<Frame<V>>): (logs: seq<Log<V>>)
    ensures |logs| == |stack| && forall i | 0 <= i < |logs| :: logs[i] == stack[i].log
  {
    seq(|stack|, i requires 0 <= i < |stack| => stack[i].log)
  }

  function Serials<V>(stack: seq<Frame<V>>): (serials: seq<nat>)
    ensures |serials| == |stack| && forall i | 0 <= i < |serials| :: serials[i] == stack[i].serial
  {
    seq(|stack|, i requires 0 <= i < |stack| => stack[i].serial)
  }

  predicate Valid<V>(s: Snap<V>) {
    forall i | 0 <= i < |s.stack| :: InRange(s.stack[i].log, |s.values|) && OnePerValue(s.stack[i].log)
  }

  // ---------------------------------------------------------------------------------------------
  // Steps

  /** SetStateValue by the state at depth k, and the assignment through the reference it returns. */
  function SetBy<V>(s: Snap<V>, k: nat, w: Write<V>): (t: Snap<V>)
    requires Valid(s) && k < |s.stack| && w.slot < |s.values|
    ensures Valid(t) && |t.values| == |s.values|
  {
    BindKeepsLog(s.stack[k].log, s.values, w.slot);
    s.(stack := s.stack[k := s.stack[k].(log := Bind(s.stack[k].log, s.values, w.slot))],
       values := s.values[w.slot := w.value])
  }

  function SetByInnermost<V>(s: Snap<V>, w: Write<V>): (t: Snap<V>)
    requires Valid(s) && s.stack != [] && w.slot < |s.values|
    ensures Valid(t) && |t.values| == |s.values|
  {
    SetBy(s, |s.stack| - 1, w)
  }

  function SetAll<V>(s: Snap<V>, writes: seq<Write<V>>): (t: Snap<V>)
    requires Valid(s) && s.stack != [] && WritesInRange(writes, |s.values|)
    ensures Valid(t) && |t.values| == |s.values| && |t.stack| == |s.stack|
    ensures t.stack[..|t.stack| - 1] == s.stack[..|s.stack| - 1]
    ensures t.stack[|t.stack| - 1].(log := []) == s.stack[|s.stack| - 1].(log := [])
    ensures t.trace == s.trace && t.created == s.created
    decreases |writes|
  {
    if writes == [] then s else SetAll(SetByInnermost(s, writes[0]), writes[1..])
  }

  /** The last value written to a StateValue is the one it has. */
  lemma {:induction false} LastWriteCounts<V>(s: Snap<V>, writes: seq<Write<V>>, j: nat)
    requires Valid(s) && s.stack != [] && WritesInRange(writes, |s.values|)
    requires j < |writes| && forall k | j < k < |writes| :: writes[k].slot != writes[j].slot
    ensures SetAll(s, writes).values[writes[j].slot] == writes[j].value
    decreases |writes|
  {
    var t := SetByInnermost(s, writes[0]);
    if j == 0 {
      assert forall k | 0 <= k < |writes| - 1 :: writes[1..][k] == writes[k + 1];
      UnwrittenStays(t, writes[1..], writes[0].slot);
    } else {
      assert forall k | j - 1 < k < |writes| - 1 :: writes[1..][k] == writes[k + 1];
      LastWriteCounts(t, writes[1..], j - 1);
    }
  }

  /** A StateValue that is not written keeps its value. */
  lemma {:induction false} UnwrittenStays<V>(s: Snap<V>, writes: seq<Write<V>>, slot: nat)
    requires Valid(s) && s.stack != [] && WritesInRange(writes, |s.values|)
    requires slot < |s.values| && forall k | 0 <= k < |writes| :: writes[k].slot != slot
    ensures SetAll(s, writes).values[slot] == s.values[slot]
    decreases |writes|
  {
    if writes != [] {
      assert forall k | 0 <= k < |writes| - 1 :: writes[1..][k] == writes[k + 1];
      UnwrittenStays(SetByInnermost(s, writes[0]), writes[1..], slot);
    }
  }

  /** OnExit of the innermost state is called. */
  function Exited<V(!new)>(s: Snap<V>, cb: Callbacks<V>): (t: Snap<V>)
    requires Valid(s) && s.stack != [] && InBounds(cb)
    ensures Valid(t) && |t.values| == |s.values| && |t.stack| == |s.stack|
    ensures t.stack[..|t.stack| - 1] == s.stack[..|s.stack| - 1]
    ensures t.stack[|t.stack| - 1].(log := []) == s.stack[|s.stack| - 1].(log := [])
    ensures t.trace == s.trace + [Exit(s.stack[|s.stack| - 1].serial)] && t.created == s.created
  {
    var state := s.stack[|s.stack| - 1];
    SetAll(s, cb.onExit(state.typeId, s.values)).(trace := s.trace + [Exit(state.serial)])
  }

  /** The destruction of the innermost state: its log is replayed. */
  function Destroyed<V>(s: Snap<V>): (t: Snap<V>)
    requires Valid(s) && s.stack != []
    ensures Valid(t) && |t.values| == |s.values|
  {
    var k := |s.stack| - 1;
    s.(stack := s.stack[..k], values := Reset(s.values, s.stack[k].log))
  }

  /** OnExit of the innermost state, then its destruction. */
  function Pop<V(!new)>(s: Snap<V>, cb: Callbacks<V>): (t: Snap<V>)
    requires Valid(s) && s.stack != [] && InBounds(cb)
    ensures Valid(t) && |t.values| == |s.values|
    ensures t.stack == s.stack[..|s.stack| - 1]
    ensures t.trace == s.trace + [Exit(s.stack[|s.stack| - 1].serial)] && t.created == s.created
  {
    Destroyed(Exited(s, cb))
  }

  /** The OnExit calls for the states at depth d and deeper, innermost first. */
  function ExitsFrom<V>(stack: seq<Frame<V>>, d: nat): seq<Event>
    decreases |stack|
  {
    if |stack| <= d then [] else [Exit(stack[|stack| - 1].serial)] + ExitsFrom(stack[..|stack| - 1], d)
  }

  /** PopStatesToDepth: from the innermost state up to and including depth d. */
  function PopTo<V(!new)>(s: Snap<V>, d: nat, cb: Callbacks<V>): (t: Snap<V>)
    requires Valid(s) && InBounds(cb)
    ensures Valid(t) && |t.values| == |s.values|
    ensures t.stack == if d < |s.stack| then s.stack[..d] else s.stack
    ensures t.trace == s.trace + ExitsFrom(s.stack, d) && t.created == s.created
    decreases |s.stack|
  {
    if |s.stack| <= d then s
    else
      var front := s.stack[..|s.stack| - 1];
      Regroup(s.trace, [Exit(s.stack[|s.stack| - 1].serial)], ExitsFrom(front, d));
      assert d < |front| ==> front[..d] == s.stack[..d];
      PopTo(Pop(s, cb), d, cb)
  }

  lemma Regroup(a: seq<Event>, b: seq<Event>, c: seq<Event>)
    ensures (a + b) + c == a + (b + c)
  {
  }

  /** A new state of the target type on top of the stack. */
  function Created<V>(s: Snap<V>, target: Target): (t: Snap<V>)
    requires Valid(s)
    ensures Valid(t)
  {
    Snap(s.stack + [Frame(target.typeId, s.created, [], s.values)], s.values, s.trace, s.created + 1)
  }

  /** Create a state, push it, and call its OnEnter. */
  function Push<V(!new)>(s: Snap<V>, target: Target, cb: Callbacks<V>): (t: Snap<V>)
    requires Valid(s) && InBounds(cb)
    ensures Valid(t) && |t.values| == |s.values| && |t.stack| == |s.stack| + 1
    ensures t.stack[..|s.stack|] == s.stack
    ensures t.stack[|s.stack|].(log := []) == Frame(target.typeId, s.created, [], s.values)
    ensures t.trace == s.trace + [Enter(s.created)] && t.created == s.created + 1
  {
    SetAll(Created(s, target), cb.onEnter(target, s.values)).(trace := s.trace + [Enter(s.created)])
  }

  // ---------------------------------------------------------------------------------------------
  // Transitions

  /** Whether the answer of the state at depth d asks for something that is not already so. */
  predicate IsEffective<V>(stack: seq<Frame<V>>, d: nat, t: Transition)
    requires d < |stack|
  {
    match t
    case No => false
    case Inner(target) => d + 1 == |stack| || stack[d + 1].typeId != target.typeId
    case InnerEntry(_) => d + 1 == |stack|
    case Sibling(_) => true
  }

  /** The answers of GetTransition during one pass, by depth. */
  type Answers = nat -> Transition

  predicate IsSettled<V>(stack: seq<Frame<V>>, ask: Answers) {
    forall d | 0 <= d < |stack| :: !IsEffective(stack, d, ask(d))
  }

  predicate IsOutermostEffective<V>(stack: seq<Frame<V>>, ask: Answers, d: nat) {
    && d < |stack| && IsEffective(stack, d, ask(d))
    && forall e | 0 <= e < d :: !IsEffective(stack, e, ask(e))
  }

  /** How many of the outer states stay when the state at depth d makes a transition. */
  function Kept(d: nat, t: Transition): nat { if t.Sibling? then d else d + 1 }

  function Perform<V(!new)>(s: Snap<V>, d: nat, t: Transition, cb: Callbacks<V>): (u: Snap<V>)
    requires Valid(s) && InBounds(cb) && d < |s.stack| && !t.No?
    ensures Valid(u) && |u.values| == |s.values|
  {
    Push(PopTo(s, Kept(d, t), cb), t.target, cb)
  }

  /** The search of one pass, from depth d inwards. */
  function FirstEffective<V>(stack: seq<Frame<V>>, ask: Answers, d: nat): (r: nat)
    requires d <= |stack|
    ensures d <= r <= |stack|
    ensures forall e | d <= e < r :: !IsEffective(stack, e, ask(e))
    ensures r < |stack| ==> IsEffective(stack, r, ask(r))
    decreases |stack| - d
  {
    if d == |stack| || IsEffective(stack, d, ask(d)) then d else FirstEffective(stack, ask, d + 1)
  }

  /** ProcessStateTransitionsOnce */
  function Pass<V(!new)>(s: Snap<V>, ask: Answers, cb: Callbacks<V>): (r: (Snap<V>, bool))
    requires Valid(s) && InBounds(cb)
    ensures Valid(r.0) && |r.0.values| == |s.values|
  {
    var d := FirstEffective(s.stack, ask, 0);
    if d == |s.stack| then (s, false) else (Perform(s, d, ask(d), cb), true)
  }

  /**
    What performing the request of the state at depth d means. For Sibling the states outside it stay the same,
    otherwise that state too; one new state of the requested type is added; and the history grows by the exits
    of the states popped, inner to outer, and the one enter.
  */
  ghost predicate IsPerformed<V>(s: Snap<V>, ask: Answers, d: nat, t: Snap<V>) {
    var kept := if ask(d).Sibling? then d else d + 1;
    && IsOutermostEffective(s.stack, ask, d)
    && kept <= |s.stack| && |t.stack| == kept + 1
    && t.stack[..kept] == s.stack[..kept]
    && t.stack[kept].typeId == ask(d).target.typeId && t.stack[kept].serial == s.created
    && t.trace == s.trace + ExitsFrom(s.stack, kept) + [Enter(s.created)]
  }

  lemma PerformedAsAsked<V(!new)>(s: Snap<V>, ask: Answers, d: nat, cb: Callbacks<V>)
    requires Valid(s) && InBounds(cb) && IsOutermostEffective(s.stack, ask, d)
    ensures IsPerformed(s, ask, d, Perform(s, d, ask(d), cb))
  {
    var kept := Kept(d, ask(d));
    var u := PopTo(s, kept, cb);
    assert u.stack == s.stack[..kept];
    var t := Push(u, ask(d).target, cb);
    assert t.stack[kept].typeId == t.stack[kept].(log := []).typeId;
    assert t.stack[kept].serial == t.stack[kept].(log := []).serial;
  }

  /**
    A pass reports no transition, and changes nothing, exactly when no state has an effective request;
    otherwise it performs the outermost effective one.
  */
  lemma PassPerformsOutermost<V(!new)>(s: Snap<V>, ask: Answers, cb: Callbacks<V>)
    requires Valid(s) && InBounds(cb)
    ensures var (t, made) := Pass(s, ask, cb);
            && (!made <==> IsSettled(s.stack, ask))
            && (!made ==> t == s)
            && (made ==> exists d :: IsPerformed(s, ask, d, t))
  {
    hide Perform, IsPerformed, IsEffective;
    var d := FirstEffective(s.stack, ask, 0);
    if d < |s.stack| {
      PerformedAsAsked(s, ask, d, cb);
    }
  }

  /** After OnEnter a StateValue has the last value that OnEnter has written to it. */
  lemma EnteringWrites<V(!new)>(s: Snap<V>, target: Target, cb: Callbacks<V>, j: nat)
    requires Valid(s) && InBounds(cb) && j < |cb.onEnter(target, s.values)|
    requires var writes := cb.onEnter(target, s.values);
             forall k | j < k < |writes| :: writes[k].slot != writes[j].slot
    ensures var w := cb.onEnter(target, s.values)[j];
            w.slot < |s.values| && Push(s, target, cb).values[w.slot] == w.value
  {
    LastWriteCounts(Created(s, target), cb.onEnter(target, s.values), j);
  }

  /** A StateValue that OnEnter does not write keeps its value. */
  lemma EnteringKeeps<V(!new)>(s: Snap<V>, target: Target, cb: Callbacks<V>, slot: nat)
    requires Valid(s) && InBounds(cb) && slot < |s.values|
    requires var writes := cb.onEnter(target, s.values); forall k | 0 <= k < |writes| :: writes[k].slot != slot
    ensures Push(s, target, cb).values[slot] == s.values[slot]
  {
    UnwrittenStays(Created(s, target), cb.onEnter(target, s.values), slot);
  }

  /** OnExit of the innermost state sees the values as they are, and its last write to a StateValue counts. */
  lemma ExitingWrites<V(!new)>(s: Snap<V>, cb: Callbacks<V>, j: nat)
    requires Valid(s) && s.stack != [] && InBounds(cb)
    requires var writes := cb.onExit(s.stack[|s.stack| - 1].typeId, s.values);
             j < |writes| && forall k | j < k < |writes| :: writes[k].slot != writes[j].slot
    ensures var w := cb.onExit(s.stack[|s.stack| - 1].typeId, s.values)[j];
            w.slot < |s.values| && Exited(s, cb).values[w.slot] == w.value
  {
    LastWriteCounts(s, cb.onExit(s.stack[|s.stack| - 1].typeId, s.values), j);
  }

  /**
    What a pass makes of the stack, by the kind of the outermost effective request: a sibling takes the place of
    the state that asks for it, an inner state comes directly inside that state.
  */
  lemma PassReplaces<V(!new)>(s: Snap<V>, ask: Answers, d: nat, cb: Callbacks<V>)
    requires Valid(s) && InBounds(cb) && IsOutermostEffective(s.stack, ask, d)
    ensures Pass(s, ask, cb).1
    ensures var t := Pass(s, ask, cb).0;
            if ask(d).Sibling? then
              |t.stack| == d + 1 && t.stack[..d] == s.stack[..d] && t.stack[d].typeId == ask(d).target.typeId
            else
              && !ask(d).No?
              && |t.stack| == d + 2 && t.stack[..d + 1] == s.stack[..d + 1]
              && t.stack[d + 1].typeId == ask(d).target.typeId
  {
    hide Perform, IsPerformed;
    assert FirstEffective(s.stack, ask, 0) == d;
    PerformedAsAsked(s, ask, d, cb);
    PerformedStack(s, ask, d, Perform(s, d, ask(d), cb));
  }

  lemma PerformedStack<V>(s: Snap<V>, ask: Answers, d: nat, t: Snap<V>)
    requires IsPerformed(s, ask, d, t)
    ensures var kept := if ask(d).Sibling? then d else d + 1;
            !ask(d).No? && kept <= |s.stack| && |t.stack| == kept + 1 && t.stack[..kept] == s.stack[..kept]
            && t.stack[kept].typeId == ask(d).target.typeId
  {
  }

  /**
    A stack is settled when no state asks for a sibling, every state that asks for an inner state has one of that
    type directly inside, and every state that asks for an inner entry has some state inside.
  */
  lemma SettledExactly<V>(stack: seq<Frame<V>>, ask: Answers)
    ensures IsSettled(stack, ask) <==>
      && (forall d | 0 <= d < |stack| :: !ask(d).Sibling?)
      && (forall d | 0 <= d < |stack| && ask(d).Inner? ::
            d + 1 < |stack| && stack[d + 1].typeId == ask(d).target.typeId)
      && (forall d | 0 <= d < |stack| && ask(d).InnerEntry? :: d + 1 < |stack|)
  {
  }
}
