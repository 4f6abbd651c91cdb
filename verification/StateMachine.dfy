/**
  The classes of src/common/hsm.h: StateValue, State and StateMachine with its stack of state objects. Each
  method is tied to the step function of module Hsm that says what it does to the whole machine.
*/
module StateMachines {
  import opened StateValues
  import opened Hsm
  import HsmRuns

  class StateValue<V> {
    var mValue: V

    constructor (initValue: V)
      ensures mValue == initValue
    {
      mValue := initValue;
    }
  }

  /** A resetter's pointer to its StateValue is the position of that object in the machine's table. */
  class State<V> {
    const mStateTypeId: TypeId
    const mStackDepth: nat
    var mStateValueResetters: Log<V>
    ghost const serial: nat
    ghost const before: seq<V>

    constructor (typeId: TypeId, stackDepth: nat, ghost serial: nat, ghost before: seq<V>)
      ensures mStateTypeId == typeId && mStackDepth == stackDepth && mStateValueResetters == []
      ensures this.serial == serial && this.before == before
    {
      mStateTypeId := typeId;
      mStackDepth := stackDepth;
      mStateValueResetters := [];
      this.serial := serial;
      this.before := before;
    }

    /** FindStateValueInResetterList */
    method FindStateValueInResetterList(slot: nat) returns (found: bool)
      ensures found <==> Binds(mStateValueResetters, slot)
    {
      var i := 0;
      while i < |mStateValueResetters|
        invariant 0 <= i <= |mStateValueResetters|
        invariant forall j | 0 <= j < i :: mStateValueResetters[j].slot != slot
      {
        if mStateValueResetters[i].slot == slot {
          return true;
        }
        i := i + 1;
      }
      found := false;
    }
  }

  /** A pass in terms of the depth that its search ends at. */
  lemma PassByRequest<V(!new)>(s: Snap<V>, ask: Answers, cb: Callbacks<V>)
    requires Hsm.Valid(s) && InBounds(cb)
    ensures var d := FirstEffective(s.stack, ask, 0);
            && (d == |s.stack| ==> Pass(s, ask, cb).0 == s)
            && (d < |s.stack| ==>
                  && !ask(d).No? && Kept(d, ask(d)) <= |s.stack|
                  && Pass(s, ask, cb).0 == Push(PopTo(s, Kept(d, ask(d)), cb), ask(d).target, cb))
            && (Pass(s, ask, cb).1 <==> d < |s.stack|)
  {
  }

  lemma SetAllStep<V>(s: Snap<V>, writes: seq<Write<V>>, i: nat)
    requires Hsm.Valid(s) && s.stack != [] && WritesInRange(writes, |s.values|) && i <= |writes|
    ensures i == |writes| ==> SetAll(s, writes[i..]) == s
    ensures i < |writes| ==> SetAll(s, writes[i..]) == SetAll(SetByInnermost(s, writes[i]), writes[i + 1..])
  {
    if i < |writes| {
      assert writes[i..][0] == writes[i] && writes[i..][1..] == writes[i + 1..];
    }
  }

  lemma PopToStep<V(!new)>(s: Snap<V>, d: nat, cb: Callbacks<V>)
    requires Hsm.Valid(s) && InBounds(cb) && |s.stack| > d
    ensures PopTo(s, d, cb) == PopTo(Pop(s, cb), d, cb)
  {
  }

  /** Nothing is popped when the stack ends at depth d. */
  lemma PopToNothing<V(!new)>(s: Snap<V>, d: nat, cb: Callbacks<V>)
    requires Hsm.Valid(s) && InBounds(cb) && |s.stack| <= d
    ensures PopTo(s, d, cb) == s
  {
  }

  ghost function FrameOf<V>(state: State<V>): Frame<V>
    reads state
  {
    Frame(state.mStateTypeId, state.serial, state.mStateValueResetters, state.before)
  }

  /** All states of a stack but its innermost are the objects that were there before. */
  ghost predicate SameOuterStates<V>(before: seq<State<V>>, after: seq<State<V>>) {
    0 < |after| <= |before| + 1 && after[..|after| - 1] == before[..|after| - 1]
  }

  class StateMachine<V(!new)> {
    const mInitial: Target
    const cb: Callbacks<V>
    const stateValues: seq<StateValue<V>>
    var mStateStack: seq<State<V>>
    /** The abstract machine, which every method keeps in step with the objects. */
    ghost var snap: Snap<V>

    ghost predicate StackMatches()
      reads this, mStateStack
    {
      && |mStateStack| == |snap.stack|
      && (forall i, j | 0 <= i < j < |mStateStack| :: mStateStack[i] != mStateStack[j])
      && (forall i | 0 <= i < |mStateStack| :: mStateStack[i].mStackDepth == i)
      && (forall i | 0 <= i < |mStateStack| :: FrameOf(mStateStack[i]) == snap.stack[i])
    }

    ghost predicate ValuesMatch()
      reads this, stateValues
    {
      && |stateValues| == |snap.values|
      && (forall i, j | 0 <= i < j < |stateValues| :: stateValues[i] != stateValues[j])
      && (forall i | 0 <= i < |stateValues| :: stateValues[i].mValue == snap.values[i])
    }

    ghost predicate Valid()
      reads this, mStateStack, stateValues
    {
      InBounds(cb) && StackMatches() && ValuesMatch() && Hsm.Valid(snap)
    }

    constructor (initial: Target, cb: Callbacks<V>, stateValues: seq<StateValue<V>>)
      requires InBounds(cb)
      requires forall i, j | 0 <= i < j < |stateValues| :: stateValues[i] != stateValues[j]
      ensures Valid() && mStateStack == []
      ensures snap.stack == [] && snap.trace == [] && snap.created == 0
      ensures this.mInitial == initial && this.cb == cb && this.stateValues == stateValues
    {
      this.mInitial := initial;
      this.cb := cb;
      this.stateValues := stateValues;
      mStateStack := [];
      snap := Snap([], seq(|stateValues|, i requires 0 <= i < |stateValues| reads stateValues => stateValues[i].mValue),
                   [], 0);
    }

    /** State::SetStateValue and the assignment through the reference it returns. */
    method SetStateValue(state: State<V>, slot: nat, value: V)
      requires Valid() && state in mStateStack && slot < |stateValues|
      modifies this`snap, state, stateValues[slot]
      ensures Valid()
      ensures mStateStack[state.mStackDepth] == state
      ensures snap == SetBy(old(snap), state.mStackDepth, Write(slot, value))
      ensures stateValues[slot].mValue == value
      ensures forall i | 0 <= i < |stateValues| && i != slot :: stateValues[i].mValue == old(stateValues[i].mValue)
    {
      var found := state.FindStateValueInResetterList(slot);
      if !found {
        state.mStateValueResetters := state.mStateValueResetters + [Resetter(slot, stateValues[slot].mValue)];
      }
      stateValues[slot].mValue := value;
      snap := SetBy(snap, state.mStackDepth, Write(slot, value));
    }

    /** The SetStateValue calls of one OnEnter or OnExit of the innermost state. */
    method SetAllByInnermost(writes: seq<Write<V>>)
      requires Valid() && mStateStack != [] && WritesInRange(writes, |stateValues|)
      modifies this`snap, mStateStack[|mStateStack| - 1], stateValues
      ensures Valid()
      ensures snap == SetAll(old(snap), writes)
    {
      hide SetAll;
      var state := mStateStack[|mStateStack| - 1];
      var i := 0;
      assert writes[i..] == writes;
      while i < |writes|
        invariant 0 <= i <= |writes|
        invariant Valid()
        invariant SetAll(old(snap), writes) == SetAll(snap, writes[i..])
      {
        SetAllStep(snap, writes, i);
        SetStateValue(state, writes[i].slot, writes[i].value);
        i := i + 1;
      }
      SetAllStep(snap, writes, i);
    }

    /** History: OnEnter or OnExit has been called. */
    ghost method Record(e: Event)
      requires Valid()
      modifies this`snap
      ensures Valid()
      ensures snap == old(snap).(trace := old(snap).trace + [e])
    {
      snap := snap.(trace := snap.trace + [e]);
    }

    /** State::ResetStateValues, which the destructor of a popped state runs. */
    method ResetStateValues(state: State<V>)
      requires ValuesMatch() && InRange(state.mStateValueResetters, |stateValues|)
      modifies this`snap, stateValues
      ensures ValuesMatch()
      ensures snap == old(snap).(values := Reset(old(snap).values, state.mStateValueResetters))
    {
      var log := state.mStateValueResetters;
      var i := 0;
      while i < |log|
        invariant 0 <= i <= |log|
        invariant ValuesMatch()
        invariant Reset(old(snap).values, log) == Reset(snap.values, log[i..])
        invariant snap == old(snap).(values := snap.values)
      {
        stateValues[log[i].slot].mValue := log[i].orig;
        snap := snap.(values := snap.values[log[i].slot := log[i].orig]);
        assert log[i..][0] == log[i] && log[i..][1..] == log[i + 1..];
        i := i + 1;
      }
      assert log[i..] == [];
    }

    /** The StateValues as the callbacks read them. */
    method CurrentValues() returns (values: seq<V>)
      requires ValuesMatch()
      ensures values == snap.values
    {
      values := seq(|stateValues|, i requires 0 <= i < |stateValues| reads stateValues => stateValues[i].mValue);
    }

    /** OnExit of the innermost state, PopState, and the destruction of the state. */
    method PopInnermost()
      requires Valid() && mStateStack != []
      modifies this, mStateStack[|mStateStack| - 1], stateValues
      ensures Valid()
      ensures mStateStack == old(mStateStack[..|mStateStack| - 1])
      ensures snap == Pop(old(snap), cb)
    {
      InvokeOnExit();
      DestroyInnermost();
    }

    method InvokeOnExit()
      requires Valid() && mStateStack != []
      modifies this`snap, mStateStack[|mStateStack| - 1], stateValues
      ensures Valid()
      ensures snap == Exited(old(snap), cb)
    {
      hide SetAll;
      var state := mStateStack[|mStateStack| - 1];
      assert FrameOf(state) == snap.stack[|snap.stack| - 1];
      var values := CurrentValues();
      SetAllByInnermost(cb.onExit(state.mStateTypeId, values));
      Record(Exit(state.serial));
    }

    method DestroyInnermost()
      requires Valid() && mStateStack != []
      modifies this, stateValues
      ensures Valid()
      ensures mStateStack == old(mStateStack[..|mStateStack| - 1])
      ensures snap == Destroyed(old(snap))
    {
      var k := |mStateStack| - 1;
      var state := mStateStack[k];
      assert FrameOf(state) == snap.stack[k];
      mStateStack := mStateStack[..k];
      snap := snap.(stack := snap.stack[..k]);
      ResetStateValues(state);
    }

    /** PopStatesToDepth */
    method PopStatesToDepth(depth: nat)
      requires Valid() && depth <= |mStateStack|
      modifies this, mStateStack, stateValues
      ensures Valid()
      ensures mStateStack == old(mStateStack[..depth])
      ensures snap == PopTo(old(snap), depth, cb)
    {
      hide PopTo, Pop;
      var numStatesToPop := |mStateStack| - depth;
      ghost var stack := mStateStack;
      ghost var result := PopTo(snap, depth, cb);
      var i := 0;
      while i < numStatesToPop
        invariant 0 <= i <= numStatesToPop
        invariant Valid()
        invariant |mStateStack| == |stack| - i && mStateStack == stack[..|stack| - i]
        invariant PopTo(snap, depth, cb) == result
      {
        assert mStateStack[|mStateStack| - 1] == stack[|mStateStack| - 1];
        PopToStep(snap, depth, cb);
        PopInnermost();
        i := i + 1;
      }
      PopToNothing(snap, depth, cb);
    }

    /** CreateState, PushState and InvokeStateOnEnter. */
    method PushAndEnter(target: Target, depth: nat)
      requires Valid() && depth == |mStateStack|
      modifies this, stateValues
      ensures Valid()
      ensures |mStateStack| == depth + 1 && mStateStack[..depth] == old(mStateStack)
      ensures fresh(mStateStack[depth])
      ensures snap == Push(old(snap), target, cb)
    {
      hide SetAll;
      CreateAndPush(target, depth);
      var values := CurrentValues();
      SetAllByInnermost(cb.onEnter(target, values));
      Record(Enter(old(snap).created));
    }

    method CreateAndPush(target: Target, depth: nat)
      requires Valid() && depth == |mStateStack|
      modifies this
      ensures Valid()
      ensures |mStateStack| == depth + 1 && mStateStack[..depth] == old(mStateStack)
      ensures fresh(mStateStack[depth])
      ensures snap == Created(old(snap), target)
    {
      var state := new State<V>(target.typeId, depth, snap.created, snap.values);
      mStateStack := mStateStack + [state];
      snap := snap.(stack := snap.stack + [FrameOf(state)], created := snap.created + 1);
    }

    /** Pops the states from depth `keep` on, if there are any, and enters the target in their place. */
    method PopAndPush(keep: nat, target: Target)
      requires Valid() && keep <= |mStateStack|
      modifies this, mStateStack, stateValues
      ensures Valid()
      ensures |mStateStack| == keep + 1 && mStateStack[..keep] == old(mStateStack)[..keep]
      ensures fresh(mStateStack[keep])
      ensures snap == Push(PopTo(old(snap), keep, cb), target, cb)
    {
      hide PopTo, Push;
      PopToNothing(snap, |mStateStack|, cb);
      if keep < |mStateStack| {
        PopStatesToDepth(keep);
      }
      PushAndEnter(target, keep);
    }

    /** The search from outermost to innermost state for one that asks for a transition it is not in already. */
    method FindRequest(ask: Answers) returns (depth: nat)
      requires Valid()
      ensures depth == FirstEffective(snap.stack, ask, 0) && depth <= |mStateStack| == |snap.stack|
    {
      depth := 0;
      while depth < |mStateStack|
        invariant 0 <= depth <= |mStateStack|
        invariant FirstEffective(snap.stack, ask, 0) == FirstEffective(snap.stack, ask, depth)
      {
        match ask(depth) {
          case No =>
          case Inner(target) =>
            if depth + 1 < |mStateStack| {
              assert FrameOf(mStateStack[depth + 1]) == snap.stack[depth + 1];
              if target.typeId != mStateStack[depth + 1].mStateTypeId {
                return;
              }
            } else {
              return;
            }
          case InnerEntry(_) =>
            if depth + 1 >= |mStateStack| {
              return;
            }
          case Sibling(_) =>
            return;
        }
        depth := depth + 1;
      }
    }

    /** ProcessStateTransitionsOnce */
    method ProcessStateTransitionsOnce(ask: Answers) returns (made: bool)
      requires Valid()
      modifies this, mStateStack, stateValues
      ensures Valid()
      ensures snap == Pass(old(snap), ask, cb).0 && made == Pass(old(snap), ask, cb).1
      ensures !made ==> mStateStack == old(mStateStack)
      ensures made ==> mStateStack != [] && SameOuterStates(old(mStateStack), mStateStack)
                       && fresh(mStateStack[|mStateStack| - 1])
    {
      hide Pass, PopTo, Push, FirstEffective;
      PassByRequest(snap, ask, cb);
      var depth := FindRequest(ask);
      made := depth < |mStateStack|;
      if made {
        var transition := ask(depth);
        var keep := if transition.Sibling? then depth else depth + 1;
        PopAndPush(keep, transition.target);
      }
    }

    /** ProcessStateTransitions; false when the check for an infinite loop of transitions fails. */
    method ProcessStateTransitions(asks: nat -> Answers) returns (ok: bool)
      requires Valid()
      modifies this, mStateStack, stateValues
      ensures Valid()
      ensures snap == HsmRuns.Process(old(snap), mInitial, asks, cb).0
      ensures ok == HsmRuns.Process(old(snap), mInitial, asks, cb).1
    {
      if mStateStack == [] {
        PushAndEnter(mInitial, 0);
      }
      ok := ProcessPasses(asks);
    }

    method ProcessPasses(asks: nat -> Answers) returns (ok: bool)
      requires Valid()
      modifies this, mStateStack, stateValues
      ensures Valid()
      ensures snap == HsmRuns.Passes(old(snap), asks, 0, cb).0
      ensures ok == HsmRuns.Passes(old(snap), asks, 0, cb).1
    {
      hide Pass, HsmRuns.Passes;
      var numTransitionsProcessed := 0;
      while true
        invariant 0 <= numTransitionsProcessed < HsmRuns.MAX_PASSES
        invariant Valid()
        invariant forall i | 0 <= i < |mStateStack| :: mStateStack[i] in old(mStateStack) || fresh(mStateStack[i])
        invariant HsmRuns.Passes(old(snap), asks, 0, cb)
               == HsmRuns.Passes(snap, asks, numTransitionsProcessed, cb)
        decreases HsmRuns.MAX_PASSES - numTransitionsProcessed
      {
        HsmRuns.PassesStep(snap, asks, numTransitionsProcessed, cb);
        var keepProcessing := ProcessStateTransitionsOnce(asks(numTransitionsProcessed));
        numTransitionsProcessed := numTransitionsProcessed + 1;
        if numTransitionsProcessed >= HsmRuns.MAX_PASSES {
          return false;
        }
        if !keepProcessing {
          return true;
        }
      }
    }

    method Stop()
      requires Valid()
      modifies this, mStateStack, stateValues
      ensures Valid() && mStateStack == []
      ensures snap == PopTo(old(snap), 0, cb)
    {
      PopStatesToDepth(0);
    }
  }
}
