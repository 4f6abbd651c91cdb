/**
  The undo log of src/common/hsm.h: every state keeps one resetter for each StateValue it has set, and
  destroying the state replays them. A stack of states is seen here as the list of its undo logs.
*/
module StateValues {

  /** ConcreteStateValueResetter: which StateValue, and the value it had when the state first set it. */
  datatype Resetter<V> = Resetter(slot: nat, orig: V)

  type Log<V> = seq<Resetter<V>>

  predicate InRange<V>(log: Log<V>, n: nat) { forall i | 0 <= i < |log| :: log[i].slot < n }

  predicate Binds<V>(log: Log<V>, slot: nat) { exists i | 0 <= i < |log| :: log[i].slot == slot }

  /** One resetter per StateValue. */
  predicate OnePerValue<V>(log: Log<V>) { forall i, j | 0 <= i < j < |log| :: log[i].slot != log[j].slot }

  /** ResetStateValues: the resetters are destroyed front to back. */
  function Reset<V>(values: seq<V>, log: Log<V>): (r: seq<V>)
    requires InRange(log, |values|)
    ensures |r| == |values|
    decreases |log|
  {
    if log == [] then values else Reset(values[log[0].slot := log[0].orig], log[1..])
  }

  /** SetStateValue: what the log of the calling state becomes. */
  function Bind<V>(log: Log<V>, values: seq<V>, slot: nat): Log<V>
    requires slot < |values|
  {
    if Binds(log, slot) then log else log + [Resetter(slot, values[slot])]
  }

  lemma BindKeepsLog<V>(log: Log<V>, values: seq<V>, slot: nat)
    requires slot < |values| && InRange(log, |values|) && OnePerValue(log)
    ensures InRange(Bind(log, values, slot), |values|) && OnePerValue(Bind(log, values, slot))
    ensures Binds(Bind(log, values, slot), slot)
  {
    if !Binds(log, slot) {
      assert (log + [Resetter(slot, values[slot])])[|log|].slot == slot;
    }
  }

  /** Undoing a stack from its innermost state down to depth d. */
  function Undo<V>(values: seq<V>, logs: seq<Log<V>>, d: nat): (r: seq<V>)
    requires AllInRange(logs, |values|)
    ensures |r| == |values|
    decreases |logs|
  {
    if |logs| <= d then values
    else Undo(Reset(values, logs[|logs| - 1]), logs[..|logs| - 1], d)
  }

  predicate AllInRange<V>(logs: seq<Log<V>>, n: nat) { forall i | 0 <= i < |logs| :: InRange(logs[i], n) }

  // ---------------------------------------------------------------------------------------------
  // Replaying one log

  lemma {:induction false} ResetAfterUpdate<V>(values: seq<V>, log: Log<V>, slot: nat, v: V)
    requires InRange(log, |values|) && slot < |values|
    ensures Reset(values[slot := v], log)
         == if Binds(log, slot) then Reset(values, log) else Reset(values, log)[slot := v]
    decreases |log|
  {
    if log != [] {
      var head, tail := log[0], log[1..];
      assert forall i | 1 <= i < |log| :: log[i] == tail[i - 1];
      if head.slot == slot {
        assert values[slot := v][slot := head.orig] == values[slot := head.orig];
      } else {
        assert values[slot := v][head.slot := head.orig] == values[head.slot := head.orig][slot := v];
        ResetAfterUpdate(values[head.slot := head.orig], tail, slot, v);
        assert Binds(log, slot) <==> Binds(tail, slot);
      }
    }
  }

  lemma {:induction false} ResetOfLonger<V>(values: seq<V>, log: Log<V>, last: Resetter<V>)
    requires InRange(log, |values|) && last.slot < |values|
    ensures Reset(values, log + [last]) == Reset(values, log)[last.slot := last.orig]
    decreases |log|
  {
    if log == [] {
      assert Reset(values[last.slot := last.orig], []) == values[last.slot := last.orig];
    } else {
      assert (log + [last])[1..] == log[1..] + [last];
      ResetOfLonger(values[log[0].slot := log[0].orig], log[1..], last);
    }
  }

  lemma {:induction false} ResetLeavesUnbound<V>(values: seq<V>, log: Log<V>, slot: nat)
    requires InRange(log, |values|) && slot < |values| && !Binds(log, slot)
    ensures Reset(values, log)[slot] == values[slot]
  {
    assert values[slot := values[slot]] == values;
    ResetAfterUpdate(values, log, slot, values[slot]);
  }

  /** The state that set a value undoes it: after its log is replayed nothing is left of the write. */
  lemma WriteIsUndone<V>(values: seq<V>, log: Log<V>, slot: nat, v: V)
    requires InRange(log, |values|) && slot < |values|
    ensures InRange(Bind(log, values, slot), |values|)
    ensures Reset(values[slot := v], Bind(log, values, slot)) == Reset(values, log)
  {
    ResetAfterUpdate(values, log, slot, v);
    if !Binds(log, slot) {
      ResetOfLonger(values[slot := v], log, Resetter(slot, values[slot]));
      ResetLeavesUnbound(values, log, slot);
      assert Reset(values, log)[slot := v][slot := values[slot]] == Reset(values, log);
    }
  }

  // ---------------------------------------------------------------------------------------------
  // Replaying the logs of a stack

  /** Undoing to depth d goes through undoing to any deeper depth k. */
  lemma {:induction false} UndoInTwoSteps<V>(values: seq<V>, logs: seq<Log<V>>, d: nat, k: nat)
    requires AllInRange(logs, |values|) && d <= k <= |logs|
    ensures Undo(values, logs, d) == Undo(Undo(values, logs, k), logs[..k], d)
    decreases |logs|
  {
    if |logs| == k {
      assert logs[..k] == logs;
    } else {
      var front := logs[..|logs| - 1];
      assert front[..k] == logs[..k];
      UndoInTwoSteps(Reset(values, logs[|logs| - 1]), front, d, k);
    }
  }

  /** Undoing to depth k only looks at the logs from depth k on. */
  lemma {:induction false} UndoIgnoresOuterLogs<V>(values: seq<V>, a: seq<Log<V>>, b: seq<Log<V>>, k: nat)
    requires AllInRange(a, |values|) && AllInRange(b, |values|)
    requires k <= |a| == |b| && a[k..] == b[k..]
    ensures Undo(values, a, k) == Undo(values, b, k)
    decreases |a|
  {
    if |a| > k {
      var n := |a| - 1;
      assert a[n] == a[k..][n - k] && b[n] == b[k..][n - k];
      assert a[..n][k..] == a[k..][..n - k] && b[..n][k..] == b[k..][..n - k];
      UndoIgnoresOuterLogs(Reset(values, a[n]), a[..n], b[..n], k);
    }
  }

  predicate BindsFrom<V>(logs: seq<Log<V>>, k: nat, slot: nat) {
    exists i | k <= i < |logs| :: Binds(logs[i], slot)
  }

  lemma {:induction false} UndoAfterUpdate<V>(values: seq<V>, logs: seq<Log<V>>, k: nat, slot: nat, v: V)
    requires AllInRange(logs, |values|) && slot < |values| && k <= |logs|
    ensures Undo(values[slot := v], logs, k)
         == if BindsFrom(logs, k, slot) then Undo(values, logs, k) else Undo(values, logs, k)[slot := v]
    decreases |logs|
  {
    if |logs| > k {
      var n := |logs| - 1;
      var front := logs[..n];
      assert forall i | 0 <= i < n :: front[i] == logs[i];
      ResetAfterUpdate(values, logs[n], slot, v);
      if !Binds(logs[n], slot) {
        UndoAfterUpdate(Reset(values, logs[n]), front, k, slot, v);
        assert BindsFrom(logs, k, slot) <==> BindsFrom(front, k, slot);
      }
    }
  }

  /** Logs in which the state at depth k has called SetStateValue. */
  function BindAt<V>(logs: seq<Log<V>>, values: seq<V>, k: nat, slot: nat): seq<Log<V>>
    requires k < |logs| && slot < |values|
  {
    logs[k := Bind(logs[k], values, slot)]
  }

  lemma BindAtInRange<V>(values: seq<V>, logs: seq<Log<V>>, k: nat, slot: nat)
    requires AllInRange(logs, |values|) && k < |logs| && slot < |values|
    ensures AllInRange(BindAt(logs, values, k, slot), |values|)
  {
    WriteIsUndone(values, logs[k], slot, values[slot]);
  }

  /** Undoing the writing state itself, after any deeper states were undone. */
  lemma UndoAtWriter<V>(values: seq<V>, logs: seq<Log<V>>, k: nat, slot: nat, v: V)
    requires AllInRange(logs, |values|) && k < |logs| && slot < |values|
    ensures AllInRange(BindAt(logs, values, k, slot), |values|)
    ensures Undo(values[slot := v], BindAt(logs, values, k, slot), k)
         == if Binds(logs[k], slot) then Undo(values, logs, k)
            else Undo(values, logs, k)[slot := values[slot]]
  {
    BindAtInRange(values, logs, k, slot);
    var after := BindAt(logs, values, k, slot);
    var inner := Undo(values, logs, k + 1);
    UndoInTwoSteps(values, logs, k, k + 1);
    UndoInTwoSteps(values[slot := v], after, k, k + 1);
    UndoIgnoresOuterLogs(values[slot := v], after, logs, k + 1);
    UndoAfterUpdate(values, logs, k + 1, slot, v);
    assert logs[..k + 1][..k] == logs[..k] && after[..k + 1][..k] == logs[..k];
    assert logs[..k + 1][k] == logs[k] && after[..k + 1][k] == after[k];
    UndoOneLevel(inner, logs[..k + 1], k);
    var innerAfter := Undo(values[slot := v], after, k + 1);
    UndoOneLevel(innerAfter, after[..k + 1], k);
    assert innerAfter == inner || innerAfter == inner[slot := v];
    ResetAfterUpdate(inner, logs[k], slot, v);
    if !Binds(logs[k], slot) {
      ResetOfLonger(innerAfter, logs[k], Resetter(slot, values[slot]));
      assert Reset(inner, logs[k])[slot := v][slot := values[slot]] == Reset(inner, logs[k])[slot := values[slot]];
    }
  }

  lemma UndoOneLevel<V>(values: seq<V>, logs: seq<Log<V>>, k: nat)
    requires AllInRange(logs, |values|) && |logs| == k + 1
    ensures Undo(values, logs, k) == Reset(values, logs[k])
  {
    assert Undo(Reset(values, logs[k]), logs[..k], k) == Reset(values, logs[k]);
  }

  /** The value that the log has on record for a StateValue: what replaying it leaves there. */
  function Recorded<V>(log: Log<V>, slot: nat): V
    requires Binds(log, slot)
    decreases |log|
  {
    var last := log[|log| - 1];
    if last.slot == slot then last.orig else Recorded(log[..|log| - 1], slot)
  }

  /**
    What the states at depth k and deeper will put back: what the outermost of them that has set the value has on
    record, or the value as it is if none of them has set it.
  */
  function PutBack<V>(values: seq<V>, logs: seq<Log<V>>, k: nat, slot: nat): V
    requires k <= |logs| && slot < |values|
    decreases |logs| - k
  {
    if k == |logs| then values[slot]
    else if Binds(logs[k], slot) then Recorded(logs[k], slot)
    else PutBack(values, logs, k + 1, slot)
  }

  lemma {:induction false} ResetGives<V>(values: seq<V>, log: Log<V>, slot: nat)
    requires InRange(log, |values|) && slot < |values|
    ensures Reset(values, log)[slot] == if Binds(log, slot) then Recorded(log, slot) else values[slot]
    decreases |log|
  {
    if log != [] {
      var n := |log| - 1;
      assert log == log[..n] + [log[n]];
      ResetOfLonger(values, log[..n], log[n]);
      ResetGives(values, log[..n], slot);
      assert Binds(log, slot) <==> Binds(log[..n], slot) || log[n].slot == slot;
    }
  }

  lemma {:induction false} UndoGives<V>(values: seq<V>, logs: seq<Log<V>>, k: nat, slot: nat)
    requires AllInRange(logs, |values|) && k <= |logs| && slot < |values|
    ensures Undo(values, logs, k)[slot] == PutBack(values, logs, k, slot)
    decreases |logs| - k
  {
    if k < |logs| {
      var inner := Undo(values, logs, k + 1);
      UndoInTwoSteps(values, logs, k, k + 1);
      UndoOneLevel(inner, logs[..k + 1], k);
      ResetGives(inner, logs[k], slot);
      UndoGives(values, logs, k + 1, slot);
    }
  }

  /**
    When a state may set a value without spoiling what popping restores, exactly: it has set that value before, or
    the value is as the outermost deeper state that has set it has on record, in particular if none has.
  */
  lemma WriteKeepsUndoExactly<V>(values: seq<V>, logs: seq<Log<V>>, k: nat, slot: nat, v: V)
    requires AllInRange(logs, |values|) && k < |logs| && slot < |values|
    ensures AllInRange(BindAt(logs, values, k, slot), |values|)
    ensures (forall d | 0 <= d <= k ::
               Undo(values[slot := v], BindAt(logs, values, k, slot), d) == Undo(values, logs, d))
       <==> Binds(logs[k], slot) || PutBack(values, logs, k + 1, slot) == values[slot]
  {
    BindAtInRange(values, logs, k, slot);
    UndoAtWriter(values, logs, k, slot, v);
    UndoGives(values, logs, k, slot);
    var after, outer := BindAt(logs, values, k, slot), Undo(values, logs, k);
    if Binds(logs[k], slot) || values[slot] == outer[slot] {
      assert outer[slot := outer[slot]] == outer;
      forall d | 0 <= d <= k
        ensures Undo(values[slot := v], after, d) == Undo(values, logs, d)
      {
        UndoInTwoSteps(values, logs, d, k);
        UndoInTwoSteps(values[slot := v], after, d, k);
        assert after[..k] == logs[..k];
      }
    } else {
      assert outer[slot := values[slot]][slot] != outer[slot];
    }
  }

  /** The state may set it if no deeper state has, whatever the value; so the innermost state always may. */
  lemma {:induction false} NobodyDeeper<V>(values: seq<V>, logs: seq<Log<V>>, k: nat, slot: nat)
    requires k <= |logs| && slot < |values| && !BindsFrom(logs, k, slot)
    ensures PutBack(values, logs, k, slot) == values[slot]
    decreases |logs| - k
  {
    if k < |logs| {
      NobodyDeeper(values, logs, k + 1, slot);
    }
  }

  /** A write by an outer state while an inner one has already set the value: popping both loses the original. */
  lemma OuterWriteSpoilsUndo(values: seq<int>, logs: seq<Log<int>>)
    requires values == [1] && logs == [[], [Resetter(0, 0)]]
    ensures AllInRange(logs, 1) && AllInRange(BindAt(logs, values, 0, 0), 1)
    ensures Undo(values, logs, 0) == [0]
    ensures Undo(values[0 := 2], BindAt(logs, values, 0, 0), 0) == [1]
  {
    UndoAtWriter(values, logs, 0, 0, 2);
    var once := Reset(values, logs[1]);
    assert once == Reset([0], []) && logs[..1] == [[]];
    assert Undo(once, logs[..1], 0) == Undo(Reset(once, []), [[]][..0], 0);
    assert Undo(values, logs, 0) == [0];
    assert !Binds(logs[0], 0);
  }
}
