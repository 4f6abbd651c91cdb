/**
  A whole pass of the queue's thread over its tasks: every task is visited, and each one that is due acts once,
  undisturbed by the others.
*/
module TransmitPasses {
  import opened Wrappers
  import opened TransmitHistory
  import opened TransmitProtocol
  import opened TransmitRuns

  /** One visit after the other, each with its clock reading. */
  ghost predicate IsPass(states: seq<State>, ids: seq<int>, readings: seq<int>, cfg: Config) {
    && |states| == |ids| + 1 && |readings| == |ids|
    && forall i, j | 0 <= i < |ids| && j == i + 1 :: states[j] == Next(states[i], Visit(ids[i], readings[i]), cfg)
  }

  /** A task is due for its first transmission at once, and after that when the wait is over. */
  lemma TaskDueExactly(t: Task, now: int, cfg: Config)
    ensures t.numTries == 0 ==> IsTaskDue(t, now, cfg)
    ensures t.numTries > 0 && cfg.waitForRetries >= 0 && 0 <= now - t.lastTransmit < 2_147_483_648 * 1_000_000 ==>
              (IsTaskDue(t, now, cfg) <==> now - t.lastTransmit >= (cfg.waitForRetries + 1) * 1_000_000)
  {
    if t.numTries > 0 && cfg.waitForRetries >= 0 && 0 <= now - t.lastTransmit < 2_147_483_648 * 1_000_000 {
      DueAfterWaitExactly(now, t.lastTransmit, cfg.waitForRetries);
    }
  }

  /** What is known of a live transmission is the same in both states. */
  predicate SameTransmission(s: State, t: State, id: int) {
    && id in s.recordOf && id in t.recordOf && s.recordOf[id] == t.recordOf[id]
    && s.recordOf[id] < |s.records| && s.recordOf[id] < |t.records|
    && s.records[s.recordOf[id]] == t.records[s.recordOf[id]]
    && id in s.tasks && id in t.tasks && s.tasks[id] == t.tasks[id]
    && id in s.idToTargets && id in t.idToTargets && s.idToTargets[id] == t.idToTargets[id]
  }

  lemma RecordedIsSame(s: State, id: int, cfg: Config)
    requires Inv(s, cfg) && id in s.recordOf
    ensures SameTransmission(s, s, id)
  {
    hide WellBehaved, Agrees;
    LiveHasRecord(s, id, cfg);
  }

  lemma StillRecorded(s: State, t: State, id: int)
    requires SameTransmission(s, t, id)
    ensures id in t.recordOf
  {
  }

  lemma SameTwice(s: State, t: State, u: State, id: int)
    requires SameTransmission(s, t, id) && SameTransmission(t, u, id)
    ensures SameTransmission(s, u, id)
  {
  }

  lemma VisitLeavesOther(s: State, other: int, now: int, cfg: Config, id: int)
    requires Inv(s, cfg) && id in s.recordOf && other != id
    ensures SameTransmission(s, Next(s, Visit(other, now), cfg), id)
  {
    hide WellBehaved, Agrees;
    LiveHasRecord(s, id, cfg);
    if ActsOn(s, other, now, cfg) { EveryActionIsRecorded(s, other, now, cfg); }
  }

  /** No live transmission but this one has record n. */
  predicate OnlyRecordOf(s: State, id: int, n: nat) { forall i | i in s.recordOf && i != id :: s.recordOf[i] != n }

  lemma VisitLeavesRecord(s: State, other: int, now: int, cfg: Config, id: int, n: nat)
    requires Inv(s, cfg) && other != id && n < |s.records| && OnlyRecordOf(s, id, n)
    ensures var t := Next(s, Visit(other, now), cfg);
            n < |t.records| && t.records[n] == s.records[n] && OnlyRecordOf(t, id, n)
  {
    hide WellBehaved, LiveAgrees;
    if ActsOn(s, other, now, cfg) { EveryActionIsRecorded(s, other, now, cfg); }
  }

  /** What the action of a due task adds to its history. */
  function ActionOf(s: State, id: int, now: int, cfg: Config): seq<Event>
    requires id in s.tasks && id in s.idToTargets
  {
    if !ActsOn(s, id, now, cfg) then []
    else if s.tasks[id].numTries >= cfg.numRetries then [Failed(now)]
    else [Sent(now, s.idToTargets[id])]
  }

  lemma VisitActs(s: State, id: int, now: int, cfg: Config)
    requires Inv(s, cfg) && id in s.recordOf
    ensures id in s.tasks && id in s.idToTargets && s.recordOf[id] < |s.records|
    ensures var t, n := Next(s, Visit(id, now), cfg), s.recordOf[id];
            && n < |t.records| && t.records[n].events == s.records[n].events + ActionOf(s, id, now, cfg)
            && OnlyRecordOf(t, id, n)
  {
    hide WellBehaved, Agrees;
    LiveHasRecord(s, id, cfg);
    if ActsOn(s, id, now, cfg) {
      EveryActionIsRecorded(s, id, now, cfg);
    } else {
      assert s.records[s.recordOf[id]].events + [] == s.records[s.recordOf[id]].events;
    }
  }

  lemma {:induction false} PassKeepsInv(states: seq<State>, ids: seq<int>, readings: seq<int>, cfg: Config, k: nat)
    requires IsPass(states, ids, readings, cfg) && Inv(states[0], cfg) && k < |states|
    ensures Inv(states[k], cfg)
  {
    hide Inv, Next;
    if k > 0 {
      PassKeepsInv(states, ids, readings, cfg, k - 1);
      VisitKeepsInvAsNext(states[k - 1], ids[k - 1], readings[k - 1], cfg);
    }
  }

  lemma VisitKeepsInvAsNext(s: State, id: int, now: int, cfg: Config)
    requires Inv(s, cfg)
    ensures Inv(Next(s, Visit(id, now), cfg), cfg)
  {
    hide Inv, ApplyVisit;
    VisitKeepsInv(s, id, now, cfg);
  }

  ghost predicate AreDistinct(ids: seq<int>) { forall i, j | 0 <= i < j < |ids| :: ids[i] != ids[j] }

  lemma {:induction false} BeforeItsVisit(states: seq<State>, ids: seq<int>, readings: seq<int>, cfg: Config,
                                          i: nat, k: nat)
    requires IsPass(states, ids, readings, cfg) && Inv(states[0], cfg) && AreDistinct(ids)
    requires k <= i < |ids| && ids[i] in states[0].recordOf
    ensures SameTransmission(states[0], states[k], ids[i])
    decreases k
  {
    hide Next, Inv, SameTransmission;
    if k == 0 {
      RecordedIsSame(states[0], ids[i], cfg);
    } else {
      BeforeItsVisit(states, ids, readings, cfg, i, k - 1);
      PassKeepsInv(states, ids, readings, cfg, k - 1);
      StillRecorded(states[0], states[k - 1], ids[i]);
      VisitLeavesOther(states[k - 1], ids[k - 1], readings[k - 1], cfg, ids[i]);
      SameTwice(states[0], states[k - 1], states[k], ids[i]);
    }
  }

  lemma {:induction false} AfterItsVisit(states: seq<State>, ids: seq<int>, readings: seq<int>, cfg: Config,
                                         i: nat, k: nat, n: nat)
    requires IsPass(states, ids, readings, cfg) && Inv(states[0], cfg) && AreDistinct(ids)
    requires i < k < |states| && n < |states[i + 1].records| && OnlyRecordOf(states[i + 1], ids[i], n)
    ensures n < |states[k].records| && states[k].records[n] == states[i + 1].records[n]
    ensures OnlyRecordOf(states[k], ids[i], n)
    decreases k
  {
    hide Next, Inv, OnlyRecordOf;
    if k > i + 1 {
      AfterItsVisit(states, ids, readings, cfg, i, k - 1, n);
      PassKeepsInv(states, ids, readings, cfg, k - 1);
      VisitLeavesRecord(states[k - 1], ids[k - 1], readings[k - 1], cfg, ids[i], n);
    }
  }

  /**
    In a pass over distinct tasks, each live transmission that is active and due at its clock reading has exactly
    one action, its failure if it has used up its retries and else a transmission to the targets not heard from;
    each other one has none. It does not matter when its turn comes.
  */
  lemma PassActsOnEveryTask(states: seq<State>, ids: seq<int>, readings: seq<int>, cfg: Config, i: nat)
    requires IsPass(states, ids, readings, cfg) && Inv(states[0], cfg) && AreDistinct(ids)
    requires i < |ids| && ids[i] in states[0].recordOf
    ensures var s, t, id, now, n := states[0], states[|ids|], ids[i], readings[i], states[0].recordOf[ids[i]];
            && id in s.tasks && id in s.idToTargets && n < |s.records| && n < |t.records|
            && t.records[n].events == s.records[n].events +
                 (if !s.tasks[id].active || !IsTaskDue(s.tasks[id], now, cfg) then []
                  else if s.tasks[id].numTries >= cfg.numRetries then [Failed(now)]
                  else [Sent(now, s.idToTargets[id])])
  {
    hide Next, Inv, OnlyRecordOf, IsTaskDue;
    BeforeItsVisit(states, ids, readings, cfg, i, i);
    PassKeepsInv(states, ids, readings, cfg, i);
    VisitActs(states[i], ids[i], readings[i], cfg);
    AfterItsVisit(states, ids, readings, cfg, i, |ids|, states[0].recordOf[ids[i]]);
  }
}
