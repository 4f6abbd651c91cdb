/**
  The classes of src/common/transmit_queue.h. Every method is proved to take exactly the steps of
  TransmitProtocol.dfy, so the invariant and the theorems about whole runs hold of them.
*/
module TransmitQueues {
  import opened TransmitHistory
  import opened TransmitProtocol
  import opened TransmitRuns
  import opened TransmitPasses
  import opened Wrappers

  predicate SomeUnused(draws: seq<int>, used: set<int>) { exists i | 0 <= i < |draws| :: draws[i] !in used }

  /** The first number drawn that is not in use. */
  function FirstUnused(draws: seq<int>, used: set<int>): int
    requires SomeUnused(draws, used)
  {
    LaterUnused(draws, used);
    if draws[0] !in used then draws[0] else FirstUnused(draws[1..], used)
  }

  lemma LaterUnused(draws: seq<int>, used: set<int>)
    requires SomeUnused(draws, used)
    ensures draws != [] && (draws[0] in used ==> SomeUnused(draws[1..], used))
  {
    var i :| 0 <= i < |draws| && draws[i] !in used;
    if i > 0 { assert draws[1..][i - 1] !in used; }
  }

  lemma {:induction false} FirstUnusedIsFirst(draws: seq<int>, used: set<int>, i: nat)
    requires i < |draws| && draws[i] !in used && forall j | 0 <= j < i :: draws[j] in used
    ensures SomeUnused(draws, used) && FirstUnused(draws, used) == draws[i]
  {
    if i > 0 { FirstUnusedIsFirst(draws[1..], used, i - 1); }
  }

  class TransmitQueue {
    var activeTransmits: map<int, Task>
    const waitForRetries: int
    const numRetries: int

    constructor (waitForRetries: int, numRetries: int)
      ensures this.waitForRetries == waitForRetries && this.numRetries == numRetries && activeTransmits == map[]
    {
      this.waitForRetries, this.numRetries, activeTransmits := waitForRetries, numRetries, map[];
    }

    /** The draws are what std::rand gives. */
    method QueueTransmission(draws: seq<int>, execute: bool) returns (num: int)
      requires SomeUnused(draws, activeTransmits.Keys)
      modifies this
      ensures num == FirstUnused(draws, old(activeTransmits).Keys) && num !in old(activeTransmits)
      ensures activeTransmits == old(activeTransmits)[num := Task(0, 0, execute)]
    {
      var i := 0;
      num := draws[i];
      while num in activeTransmits
        invariant i < |draws| && num == draws[i]
        invariant forall j | 0 <= j < i :: draws[j] in activeTransmits
        decreases |draws| - i
      {
        assert i + 1 < |draws| by { SomeDrawIsLater(draws, activeTransmits.Keys, i); }
        i := i + 1;
        num := draws[i];
      }
      FirstUnusedIsFirst(draws, activeTransmits.Keys, i);
      activeTransmits := activeTransmits[num := Task(0, 0, execute)];
    }

    method RemoveTransmissionFromQueue(id: int)
      modifies this
      ensures activeTransmits == old(activeTransmits) - {id}
    {
      if id in activeTransmits {
        activeTransmits := activeTransmits[id := activeTransmits[id].(active := false)];
        activeTransmits := activeTransmits - {id};
      }
    }

    /** False stands for the exception about an unknown number. */
    method Execute(num: int) returns (known: bool)
      modifies this
      ensures known <==> num in old(activeTransmits)
      ensures activeTransmits == if known then old(activeTransmits)[num := old(activeTransmits)[num].(active := true)]
                                 else old(activeTransmits)
    {
      if num !in activeTransmits { return false; }
      activeTransmits := activeTransmits[num := activeTransmits[num].(active := true)];
      known := true;
    }
  }

  lemma SomeDrawIsLater(draws: seq<int>, used: set<int>, i: nat)
    requires SomeUnused(draws, used)
    requires i < |draws| && forall j | 0 <= j <= i :: draws[j] in used
    ensures i + 1 < |draws|
  {
    var k :| 0 <= k < |draws| && draws[k] !in used;
    assert k > i;
  }

  /** How QueueTransmission ends before its call of Execute: OutOfStep stands for the "desynced" exceptions. */
  datatype Enqueued = Ignored | OutOfStep(num: int) | Entered(num: int)

  /** Ignored if some key is taken, out of step exactly for a stale number. */
  function EnqueuedAs(s: State, keys: seq<Key>, num: int): Enqueued {
    if !AllFree(s, keys) then Ignored else if num in Stale(s) then OutOfStep(num) else Entered(num)
  }

  lemma WithoutStep(targets: seq<Target>, i: nat, t: Target)
    requires i <= |targets|
    ensures i == |targets| ==> Without(targets[i..], {t}) == []
    ensures i < |targets| ==>
              Without(targets[i..], {t})
              == (if targets[i] == t then [] else [targets[i]]) + Without(targets[i + 1..], {t})
  {
    if i < |targets| { assert targets[i..][1..] == targets[i + 1..]; }
  }

  /** Inserting leaves the number of a key that is there already. */
  function Inserted(m: map<Key, int>, keys: seq<Key>, num: int): map<Key, int> { (map k | k in keys :: num) + m }

  lemma OneMoreInserted(m: map<Key, int>, keys: seq<Key>, num: int, i: nat)
    requires i < |keys|
    ensures var before := Inserted(m, keys[..i], num);
            Inserted(m, keys[..i + 1], num) == if keys[i] in before then before else before[keys[i] := num]
  {
    assert keys[..i + 1] == keys[..i] + [keys[i]];
  }

  lemma InsertedMeans(m: map<Key, int>, keys: seq<Key>, num: int)
    requires forall k | k in keys :: k !in m
    ensures var t := Inserted(m, keys, num);
            && (forall k | k in keys :: k in t && t[k] == num)
            && (forall k | k in m :: k in t && t[k] == m[k])
            && t.Keys == m.Keys + Elems(keys)
  {
  }

  lemma InsertedEitherWay(m: map<Key, int>, keys: seq<Key>, num: int)
    requires forall k | k in keys :: k !in m
    ensures Inserted(m, keys, num) == m + (map k | k in keys :: num)
  {
  }

  class TransmitQueueWithKeys {
    const queue: TransmitQueue
    var activeTransmissions: map<Key, int>
    var keysOfTransmission: map<int, seq<Key>>
    var targetsOfTransmission: map<int, seq<Target>>
    var detached: set<int>        // what the detached removal threads have captured
    ghost var state: State

    ghost function Cfg(): Config { Config(queue.waitForRetries, queue.numRetries) }

    ghost predicate Valid()
      reads this, queue
    {
      && state.tasks == queue.activeTransmits
      && state.keyToId == activeTransmissions
      && state.idToKeys == keysOfTransmission
      && state.idToTargets == targetsOfTransmission
      && state.pending == detached
      && Inv(state, Cfg())
    }

    constructor (queue: TransmitQueue)
      requires queue.activeTransmits == map[]
      ensures Valid() && this.queue == queue && state == INITIAL
    {
      this.queue := queue;
      activeTransmissions, keysOfTransmission, targetsOfTransmission, detached := map[], map[], map[], {};
      state := INITIAL;
      new;
      InitialIsInv(Cfg());
    }

    method KeysAreFree(keys: seq<Key>) returns (free: bool)
      ensures free <==> forall k | k in keys :: k !in activeTransmissions
    {
      var i := 0;
      while i < |keys|
        invariant 0 <= i <= |keys|
        invariant forall k | k in keys[..i] :: k !in activeTransmissions
      {
        if keys[i] in activeTransmissions { return false; }
        i := i + 1;
      }
      assert keys[..i] == keys;
      free := true;
    }

    method InsertKeys(keys: seq<Key>, num: int)
      modifies this`activeTransmissions
      ensures activeTransmissions == Inserted(old(activeTransmissions), keys, num)
    {
      var i := 0;
      while i < |keys|
        invariant 0 <= i <= |keys|
        invariant activeTransmissions == Inserted(old(activeTransmissions), keys[..i], num)
      {
        OneMoreInserted(old(activeTransmissions), keys, num, i);
        if keys[i] !in activeTransmissions {
          activeTransmissions := activeTransmissions[keys[i] := num];
        }
        i := i + 1;
      }
      assert keys[..i] == keys;
    }

    /** The part of QueueTransmission before its call of Execute. */
    method Enqueue(keys: seq<Key>, targets: seq<Target>, draws: seq<int>) returns (e: Enqueued)
      requires Valid()
      requires SomeUnused(draws, queue.activeTransmits.Keys)
      modifies this, queue
      ensures e == EnqueuedAs(old(state), keys, FirstUnused(draws, old(queue.activeTransmits).Keys))
      ensures !e.OutOfStep? ==> Valid()
      ensures e.Ignored? ==> state == old(state)
      ensures e.OutOfStep? ==>
                && state == old(state)
                && queue.activeTransmits == state.tasks[e.num := Task(0, 0, false)]
                && activeTransmissions == Inserted(state.keyToId, keys, e.num)
                && keysOfTransmission == state.idToKeys && targetsOfTransmission == state.idToTargets
      ensures e.Entered? ==>
                && e.num !in old(state).tasks
                && state == Next(old(state), Queue(keys, targets, e.num), Cfg())
                && e.num in queue.activeTransmits && e.num !in detached
      ensures e.Entered? ==>
                && (forall k | k in keys :: k in activeTransmissions && activeTransmissions[k] == e.num)
                && (forall k | k in old(activeTransmissions) ::
                      k in activeTransmissions && activeTransmissions[k] == old(activeTransmissions)[k])
                && activeTransmissions.Keys == old(activeTransmissions).Keys + Elems(keys)
                && keysOfTransmission == old(keysOfTransmission)[e.num := keys]
                && targetsOfTransmission == old(targetsOfTransmission)[e.num := targets]
                && queue.activeTransmits == old(queue.activeTransmits)[e.num := Task(0, 0, false)]
    {
      hide Inv, FirstUnused, SomeUnused, Inserted;
      var free := KeysAreFree(keys);
      if !free { return Ignored; }
      var num := queue.QueueTransmission(draws, false);
      OutOfTheWay(state, num, Cfg());
      InsertedMeans(activeTransmissions, keys, num);
      InsertedEitherWay(activeTransmissions, keys, num);
      InsertKeys(keys, num);
      if num in keysOfTransmission {
        return OutOfStep(num);
      }
      if num in targetsOfTransmission {
        return OutOfStep(num);
      }
      keysOfTransmission := keysOfTransmission[num := keys];
      targetsOfTransmission := targetsOfTransmission[num := targets];
      QueueKeepsInv(state, keys, targets, num, Cfg());
      state := Next(state, Queue(keys, targets, num), Cfg());
      e := Entered(num);
    }

    /** QueueTransmission with no other step in between: then Execute does not throw. */
    method QueueTransmission(keys: seq<Key>, targets: seq<Target>, draws: seq<int>) returns (e: Enqueued)
      requires Valid()
      requires SomeUnused(draws, queue.activeTransmits.Keys)
      modifies this, queue
      ensures e == EnqueuedAs(old(state), keys, FirstUnused(draws, old(queue.activeTransmits).Keys))
      ensures !e.OutOfStep? ==> Valid()
      ensures !e.Entered? ==> state == old(state)
      ensures e.Entered? ==>
                && e.num !in old(state).tasks
                && state == Next(Next(old(state), Queue(keys, targets, e.num), Cfg()), Execute(e.num), Cfg())
                && e.num in queue.activeTransmits && queue.activeTransmits[e.num].active
    {
      hide Inv, ApplyQueue, FirstUnused, SomeUnused, EnqueuedAs;
      e := Enqueue(keys, targets, draws);
      if e.Entered? {
        var known := queue.Execute(e.num);
        assert known;
        ExecuteKeepsInv(state, e.num, Cfg());
        state := Next(state, Execute(e.num), Cfg());
      }
    }

    /** The inner loop of removal and of failure. */
    method EraseKeys(keys: seq<Key>)
      modifies this`activeTransmissions
      ensures activeTransmissions == old(activeTransmissions) - Elems(keys)
    {
      var i := 0;
      while i < |keys|
        invariant 0 <= i <= |keys|
        invariant activeTransmissions == old(activeTransmissions) - Elems(keys[..i])
      {
        activeTransmissions := activeTransmissions - {keys[i]};
        i := i + 1;
        assert Elems(keys[..i]) == Elems(keys[..i - 1]) + {keys[i - 1]};
      }
      assert keys[..i] == keys;
    }

    /** Removal of a transmission from the queue and from the three maps. */
    method Drop(num: int)
      modifies this, queue
      ensures queue.activeTransmits == old(queue.activeTransmits) - {num}
      ensures activeTransmissions == if num in old(keysOfTransmission)
                                     then old(activeTransmissions) - Elems(old(keysOfTransmission)[num])
                                     else old(activeTransmissions)
      ensures keysOfTransmission == old(keysOfTransmission) - {num}
      ensures targetsOfTransmission == old(targetsOfTransmission) - {num}
      ensures state == old(state) && detached == old(detached)
    {
      queue.RemoveTransmissionFromQueue(num);
      if num in keysOfTransmission {
        EraseKeys(keysOfTransmission[num]);
      }
      keysOfTransmission := keysOfTransmission - {num};
      targetsOfTransmission := targetsOfTransmission - {num};
    }

    /** What std::remove and erase leave. */
    method EraseTarget(targets: seq<Target>, t: Target) returns (rest: seq<Target>)
      ensures rest == Without(targets, {t})
    {
      hide Without;
      rest := [];
      var i := 0;
      assert targets[i..] == targets;
      while i < |targets|
        invariant 0 <= i <= |targets|
        invariant rest + Without(targets[i..], {t}) == Without(targets, {t})
      {
        WithoutStep(targets, i, t);
        if targets[i] != t { rest := rest + [targets[i]]; }
        i := i + 1;
      }
      WithoutStep(targets, i, t);
    }

    /** The loop of the source has no exit but its break; it ends because the maps agree. */
    method RemoveTransmission(key: Key, receivedFrom: Option<Target>)
      requires Valid()
      modifies this, queue
      ensures Valid() && state == ApplyAck(old(state), key, receivedFrom)
    {
      hide HistoryAgrees, Without;
      while true
        invariant Valid()
        invariant state == old(state) || key !in activeTransmissions
        invariant key !in activeTransmissions ==> state == ApplyAck(old(state), key, receivedFrom)
        decreases if key in activeTransmissions then 1 else 0
      {
        if key in activeTransmissions {
          var num := activeTransmissions[key];
          var removeTransmission := false;
          if num in targetsOfTransmission && receivedFrom.Some? {
            var rest := EraseTarget(targetsOfTransmission[num], receivedFrom.value);
            targetsOfTransmission := targetsOfTransmission[num := rest];
            if rest == [] {
              removeTransmission := true;
            }
          }
          if num !in targetsOfTransmission {
            removeTransmission := true;
          }
          AckKeepsInv(state, key, receivedFrom, Cfg());
          state := ApplyAck(state, key, receivedFrom);
          if removeTransmission {
            Drop(num);
            continue;
          }
        }
        break;
      }
    }

    /** The failure function of a transmission, after the user's part. False stands for a failing map access. */
    method FailFunction(num: int) returns (ok: bool)
      modifies this
      ensures ok <==> num in old(keysOfTransmission)
      ensures state == old(state) && detached == old(detached)
      ensures ok ==> && activeTransmissions == old(activeTransmissions) - Elems(old(keysOfTransmission)[num])
                     && keysOfTransmission == old(keysOfTransmission) - {num}
                     && targetsOfTransmission == old(targetsOfTransmission) - {num}
    {
      if num !in keysOfTransmission { return false; }
      EraseKeys(keysOfTransmission[num]);
      keysOfTransmission := keysOfTransmission - {num};
      targetsOfTransmission := targetsOfTransmission - {num};
      ok := true;
    }

    /**
      One task in a pass of the queue's thread. What is handed to the user's transmit action, if it runs, is
      returned; neither map access fails.
    */
    method VisitTask(id: int, currTime: int) returns (given: Option<seq<Target>>, failed: bool)
      requires Valid() && id in queue.activeTransmits
      modifies this, queue
      ensures Valid() && state == Next(old(state), Visit(id, currTime), Cfg())
      ensures ApplyVisit(old(state), id, currTime, Cfg()).Ok?
      ensures queue.activeTransmits.Keys == old(queue.activeTransmits).Keys
      ensures failed <==> ActsOn(old(state), id, currTime, Cfg()) && old(state).tasks[id].numTries >= queue.numRetries
      ensures given.Some? <==> ActsOn(old(state), id, currTime, Cfg()) && !failed
      ensures given.Some? ==> id in old(state).idToTargets && given.value == old(state).idToTargets[id]
    {
      hide HistoryAgrees;
      given, failed := None, false;
      var task := queue.activeTransmits[id];
      if !task.active { return; }
      var elapsed := ElapsedMs(currTime, task.lastTransmit);
      VisitKeepsInv(state, id, currTime, Cfg());
      if task.numTries == 0 || elapsed > queue.waitForRetries {
        ghost var next := Next(state, Visit(id, currTime), Cfg());
        if task.numTries >= queue.numRetries {
          var ok := FailFunction(id);
          assert ok;
          queue.activeTransmits := queue.activeTransmits[id := task.(active := false)];
          detached := detached + {id};
          failed := true;
        } else {
          queue.activeTransmits :=
            queue.activeTransmits[id := task.(lastTransmit := currTime, numTries := task.numTries + 1)];
          given := Some(targetsOfTransmission[id]);
        }
        state := next;
      }
    }

    /**
      A whole pass of the queue's thread over its tasks, in whatever order the map gives them, with the clock
      readings that it takes. The states that it goes through are returned as history.
    */
    method RunPass(ids: seq<int>, readings: seq<int>) returns (ghost states: seq<State>)
      requires Valid() && |ids| == |readings|
      requires Elems(ids) == queue.activeTransmits.Keys
      modifies this, queue
      ensures Valid()
      ensures |states| == |ids| + 1 && states[0] == old(state) && states[|ids|] == state
      ensures IsPass(states, ids, readings, Cfg())
      ensures queue.activeTransmits.Keys == old(queue.activeTransmits).Keys
    {
      hide Inv, Next;
      states := [state];
      var i := 0;
      while i < |ids|
        invariant 0 <= i <= |ids| && |states| == i + 1
        invariant Valid() && queue.activeTransmits.Keys == old(queue.activeTransmits).Keys
        invariant states[0] == old(state) && states[i] == state
        invariant forall k, m | 0 <= k < i && m == k + 1 ::
                    states[m] == Next(states[k], Visit(ids[k], readings[k]), Cfg())
      {
        assert ids[i] in Elems(ids);
        var _, _ := VisitTask(ids[i], readings[i]);
        states := states + [state];
        i := i + 1;
      }
    }

    /** A detached thread removes the id that it has captured. */
    method RunDetachedRemoval(id: int)
      requires Valid() && id in detached
      modifies this, queue
      ensures Valid() && state == Next(old(state), Reap(id), Cfg())
      ensures queue.activeTransmits == old(queue.activeTransmits) - {id} && detached == old(detached) - {id}
      ensures activeTransmissions == old(activeTransmissions) && keysOfTransmission == old(keysOfTransmission)
      ensures targetsOfTransmission == old(targetsOfTransmission)
    {
      ReapKeepsInv(state, id, Cfg());
      queue.RemoveTransmissionFromQueue(id);
      detached := detached - {id};
      state := Next(state, Reap(id), Cfg());
    }

    /** The maps stay in step exactly if no transmission without keys is queued; all live ids become stale. */
    method RemoveAllTransmissions()
      requires Valid()
      modifies this, queue
      ensures state == AllRemoved(old(state)) && Stale(state) == Stale(old(state)) + old(state).idToKeys.Keys
      ensures Valid() <==> AllKeyed(old(state))
      ensures queue.activeTransmits == state.tasks && activeTransmissions == state.keyToId
      ensures keysOfTransmission == state.idToKeys && targetsOfTransmission == state.idToTargets
      ensures detached == state.pending
      ensures activeTransmissions == map[] && keysOfTransmission == map[]
      ensures queue.activeTransmits == old(queue.activeTransmits) - old(activeTransmissions).Values
      ensures targetsOfTransmission == old(targetsOfTransmission) && detached == old(detached)
    {
      hide Inv;
      var left := activeTransmissions.Keys;
      ghost var done: set<int> := {};
      while left != {}
        invariant left <= activeTransmissions.Keys
        invariant done == set k | k in activeTransmissions.Keys - left :: activeTransmissions[k]
        invariant queue.activeTransmits == old(queue.activeTransmits) - done
        invariant unchanged(this)
        decreases left
      {
        var k :| k in left;
        queue.RemoveTransmissionFromQueue(activeTransmissions[k]);
        done := done + {activeTransmissions[k]};
        left := left - {k};
      }
      assert done == activeTransmissions.Values;
      activeTransmissions, keysOfTransmission := map[], map[];
      RemoveAllKeepsInvExactly(state, Cfg());
      state := AllRemoved(state);
    }
  }
}
