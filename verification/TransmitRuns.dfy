/**
  Whole runs of the transmit protocol: what holds in every run, which calls throw, and that the histories of
  TransmitHistory.dfy are exactly those that runs produce.
*/
module TransmitRuns {
  import opened Wrappers
  import opened TransmitHistory
  import opened TransmitProtocol

  /** The state after a step. Execute on an unknown number throws before it changes anything. */
  function Next(s: State, step: Step, cfg: Config): State {
    var o := Apply(s, step, cfg);
    if o.Ok? then o.next else s
  }

  ghost predicate Leads(s: State, step: Step, t: State, cfg: Config) {
    Possible(s, step) && !Apply(s, step, cfg).Desynced? && t == Next(s, step, cfg)
  }

  /** A run goes on after every step but a "desynced" exception, which leaves the source's mutex locked. */
  ghost predicate IsRun(states: seq<State>, steps: seq<Step>, cfg: Config) {
    && |states| == |steps| + 1
    && states[0] == INITIAL
    && forall i, j | 0 <= i < |steps| && j == i + 1 :: Leads(states[i], steps[i], states[j], cfg)
  }

  /** The ids that calls of RemoveAllTransmissions have removed before state i, read off the run. */
  function RemovedIds(states: seq<State>, steps: seq<Step>, i: nat): set<int>
    requires i < |states| && |states| == |steps| + 1
  {
    if i == 0 then {}
    else RemovedIds(states, steps, i - 1) + if steps[i - 1].RemoveAll? then states[i - 1].idToKeys.Keys else {}
  }

  // ---------------------------------------------------------------------------------------------
  // Every step

  /** The exact conditions under which a step throws. */
  predicate ThrowsExactly(s: State, step: Step, cfg: Config) {
    var o := Apply(s, step, cfg);
    && (o.Desynced? <==> step.Queue? && AllFree(s, step.keys) && step.num in Stale(s))
    && (o.UnknownNumber? <==> step.Execute? && step.num !in s.tasks)
    && !o.OutOfRange?
  }

  lemma StepThrowsExactly(s: State, step: Step, cfg: Config)
    requires Inv(s, cfg) && Possible(s, step)
    ensures ThrowsExactly(s, step, cfg)
  {
    hide Inv, ApplyQueue, ApplyVisit, ApplyAck, Stale, AllFree;
    match step {
      case Queue(keys, targets, num) => QueueKeepsInv(s, keys, targets, num, cfg);
      case Visit(id, now) => VisitKeepsInv(s, id, now, cfg);
      case _ =>
    }
  }

  lemma StepKeepsInv(s: State, step: Step, cfg: Config)
    requires Inv(s, cfg) && Possible(s, step) && !Apply(s, step, cfg).Desynced?
    ensures Inv(Next(s, step, cfg), cfg)
  {
    hide Inv, ApplyQueue, ApplyVisit, ApplyAck, AllRemoved;
    match step {
      case Queue(keys, targets, num) => QueueKeepsInv(s, keys, targets, num, cfg);
      case Execute(num) => if num in s.tasks { ExecuteKeepsInv(s, num, cfg); }
      case Visit(id, now) => VisitKeepsInv(s, id, now, cfg);
      case Ack(key, from) => AckKeepsInv(s, key, from, cfg);
      case Reap(id) => ReapKeepsInv(s, id, cfg);
      case RemoveAll => RemoveAllKeepsInvExactly(s, cfg);
    }
  }

  /** Only RemoveAllTransmissions makes ids stale, and they stay so. */
  lemma StaleAfterStep(s: State, step: Step, cfg: Config)
    requires Inv(s, cfg) && Possible(s, step) && !Apply(s, step, cfg).Desynced?
    ensures Stale(Next(s, step, cfg)) == Stale(s) + if step.RemoveAll? then s.idToKeys.Keys else {}
  {
    hide HistoryAgrees;
    match step {
      case Queue(keys, targets, num) => QueueKeepsInv(s, keys, targets, num, cfg);
      case Visit(id, now) => StaleAfterVisit(s, id, now, cfg);
      case Ack(key, from) => StaleAfterAck(s, key, from, cfg);
      case RemoveAll => RemoveAllKeepsInvExactly(s, cfg);
      case _ =>
    }
  }

  lemma StaleAfterVisit(s: State, id: int, now: int, cfg: Config)
    requires Inv(s, cfg)
    ensures Stale(Next(s, Visit(id, now), cfg)) == Stale(s)
  {
    hide HistoryAgrees;
    if ActsOn(s, id, now, cfg) { EveryActionIsRecorded(s, id, now, cfg); }
  }

  lemma StaleAfterAck(s: State, key: Key, from: Option<Target>, cfg: Config)
    requires Inv(s, cfg)
    ensures Stale(ApplyAck(s, key, from)) == Stale(s)
  {
    hide HistoryAgrees, Without;
  }

  // ---------------------------------------------------------------------------------------------
  // Every run

  lemma {:induction false} RunsKeepInv(states: seq<State>, steps: seq<Step>, cfg: Config, i: nat)
    requires IsRun(states, steps, cfg) && i < |states|
    ensures Inv(states[i], cfg)
    ensures Stale(states[i]) == RemovedIds(states, steps, i)
  {
    hide Inv, Apply, Possible, Next;
    if i == 0 {
      InitialIsInv(cfg);
    } else {
      RunsKeepInv(states, steps, cfg, i - 1);
      assert Leads(states[i - 1], steps[i - 1], states[i], cfg);
      StepKeepsInv(states[i - 1], steps[i - 1], cfg);
      StaleAfterStep(states[i - 1], steps[i - 1], cfg);
    }
  }

  /**
    Which calls throw in a run, exactly. "Desynced": a QueueTransmission with free keys that draws the number of a
    transmission that RemoveAllTransmissions has removed at some time before. Unknown number: an Execute of a
    number that is not in the queue. A map access never fails.
  */
  lemma RunsThrowExactly(states: seq<State>, steps: seq<Step>, cfg: Config, i: nat, step: Step)
    requires IsRun(states, steps, cfg) && i < |states| && Possible(states[i], step)
    ensures var o := Apply(states[i], step, cfg);
            && (o.Desynced? <==> step.Queue? && AllFree(states[i], step.keys)
                                 && step.num in RemovedIds(states, steps, i))
            && (o.UnknownNumber? <==> step.Execute? && step.num !in states[i].tasks)
            && !o.OutOfRange?
  {
    hide Inv, Apply, Possible;
    RunsKeepInv(states, steps, cfg, i);
    StepThrowsExactly(states[i], step, cfg);
  }

  lemma {:induction false} NothingRemoved(states: seq<State>, steps: seq<Step>, i: nat)
    requires i < |states| && |states| == |steps| + 1
    requires forall j | 0 <= j < i :: !steps[j].RemoveAll?
    ensures RemovedIds(states, steps, i) == {}
  {
    if i > 0 { NothingRemoved(states, steps, i - 1); }
  }

  /** In runs without RemoveAllTransmissions neither "desynced" exception can be thrown. */
  lemma NeverDesynced(states: seq<State>, steps: seq<Step>, cfg: Config, i: nat, step: Step)
    requires IsRun(states, steps, cfg) && i < |states| && Possible(states[i], step)
    requires forall j | 0 <= j < i :: !steps[j].RemoveAll?
    ensures !Apply(states[i], step, cfg).Desynced? && states[i].idToKeys.Keys == states[i].idToTargets.Keys
  {
    hide Inv, Apply, Possible;
    RunsThrowExactly(states, steps, cfg, i, step);
    RunsKeepInv(states, steps, cfg, i);
    NothingRemoved(states, steps, i);
    MapsOf(states[i], cfg);
  }

  lemma MapsOf(s: State, cfg: Config)
    requires Inv(s, cfg)
    ensures Stale(s) == {} ==> s.idToKeys.Keys == s.idToTargets.Keys
  {
    hide HistoryAgrees, QueueAgrees;
    if Stale(s) == {} {
      forall id | id in s.idToTargets
        ensures id in s.idToKeys
      {
        assert id in s.idToKeys || id in Stale(s);
      }
    }
  }

  /** Some acknowledgement has come, and every target has acknowledged. */
  predicate HeardFromAll(r: Record) {
    AckedIn(r.events) != {} && forall t | t in r.targets :: t in AckedIn(r.events)
  }

  lemma HeardFromAllExactly(r: Record)
    ensures AllAcked(r.targets, r.events) <==> HeardFromAll(r)
  {
    if r.targets != [] {
      AllAckedExactly(r.targets, r.events);
      assert r.targets[0] in r.targets;
    }
  }

  /** A record is live exactly while its history is not over. */
  lemma LiveExactly(s: State, n: nat, cfg: Config)
    requires Inv(s, cfg) && n < |s.records|
    ensures var r := s.records[n];
            && WellBehaved(r.targets, r.events, cfg)
            && (IsLiveRecord(s, n) <==> !HasFailed(r.events) && !WasRemoved(r.events) && !HeardFromAll(r))
  {
    hide LiveAgrees;
    HeardFromAllExactly(s.records[n]);
    if IsLiveRecord(s, n) { LiveIsNotOver(s, n, cfg); }
  }

  /**
    Reliable broadcast over whole runs: a transmission has been dequeued exactly when its failure action has run,
    RemoveAllTransmissions has removed it, or every one of its targets has acknowledged.
  */
  lemma DequeuedExactlyWhenOver(states: seq<State>, steps: seq<Step>, cfg: Config, i: nat, n: nat)
    requires IsRun(states, steps, cfg) && i < |states| && n < |states[i].records|
    ensures var r := states[i].records[n];
            && WellBehaved(r.targets, r.events, cfg)
            && (!IsLiveRecord(states[i], n) <==> HasFailed(r.events) || WasRemoved(r.events) || HeardFromAll(r))
  {
    hide Inv;
    RunsKeepInv(states, steps, cfg, i);
    LiveExactly(states[i], n, cfg);
  }

  /** What a history promises to users. */
  ghost predicate RetriesAsPromised(r: Record, cfg: Config) {
    && |SendTimes(r.events)| <= Max0(cfg.numRetries)
    && (forall j | 0 <= j < |r.events| && r.events[j].Sent? ::
          r.events[j].given == Without(r.targets, AckedIn(r.events[..j])))
    && (forall j | 0 <= j < |r.events| && r.events[j].Failed? ::
          j == |r.events| - 1 && |SendTimes(r.events[..j])| == Max0(cfg.numRetries))
  }

  /** Actions are more than the wait apart exactly if the clock is steady, and then failure comes late enough. */
  ghost predicate TimedAsPromised(r: Record, cfg: Config)
    requires cfg.waitForRetries >= 0
  {
    var gap := (cfg.waitForRetries + 1) * NANOS_PER_MS;
    && (Spaced(r.events, cfg.waitForRetries) <==> SteadyClock(r.events))
    && (SteadyClock(r.events) ==> HaveGaps(SendTimes(r.events), gap))
    && (SteadyClock(r.events) && r.events != [] && r.events[|r.events| - 1].Failed? && cfg.numRetries >= 1 ==>
          && SendTimes(r.events) != []
          && r.events[|r.events| - 1].now - SendTimes(r.events)[0] >= cfg.numRetries * gap)
  }

  lemma HistoryKeepsPromise(r: Record, cfg: Config)
    requires WellBehaved(r.targets, r.events, cfg)
    ensures RetriesAsPromised(r, cfg)
  {
    hide WellBehaved;
    TransmittedAtMost(r.targets, r.events, cfg);
    forall j | 0 <= j < |r.events| && r.events[j].Sent?
      ensures r.events[j].given == Without(r.targets, AckedIn(r.events[..j]))
    {
      EveryTransmissionIsToTheUnheard(r.targets, r.events, cfg, j);
    }
    forall j | 0 <= j < |r.events| && r.events[j].Failed?
      ensures j == |r.events| - 1 && |SendTimes(r.events[..j])| == Max0(cfg.numRetries)
    {
      FailsOnceAfterAllRetries(r.targets, r.events, cfg, j);
    }
  }

  lemma HistoryKeepsTime(r: Record, cfg: Config)
    requires WellBehaved(r.targets, r.events, cfg) && cfg.waitForRetries >= 0
    ensures TimedAsPromised(r, cfg)
  {
    hide WellBehaved, Spaced, SteadyClock, HaveGaps;
    SpacedExactly(r.targets, r.events, cfg);
    if SteadyClock(r.events) {
      SendTimesAreSpaced(r.events, cfg.waitForRetries);
      if r.events != [] && r.events[|r.events| - 1].Failed? && cfg.numRetries >= 1 {
        FailureComesLate(r.targets, r.events, cfg);
      }
    }
  }

  /**
    In every run, of every transmission: it is transmitted at most numRetries times, each time to exactly the
    targets not heard from before, in their order; its failure action runs at most once, as the last thing,
    after exactly numRetries transmissions; and all this is spaced in time exactly if the clock is steady.
  */
  lemma RunsRetryAsPromised(states: seq<State>, steps: seq<Step>, cfg: Config, i: nat, n: nat)
    requires IsRun(states, steps, cfg) && i < |states| && n < |states[i].records|
    ensures RetriesAsPromised(states[i].records[n], cfg)
    ensures cfg.waitForRetries >= 0 ==> TimedAsPromised(states[i].records[n], cfg)
  {
    hide Inv, RetriesAsPromised, TimedAsPromised;
    RunsKeepInv(states, steps, cfg, i);
    LiveExactly(states[i], n, cfg);
    HistoryKeepsPromise(states[i].records[n], cfg);
    if cfg.waitForRetries >= 0 { HistoryKeepsTime(states[i].records[n], cfg); }
  }

  // ---------------------------------------------------------------------------------------------
  // Acknowledgements that overtake the call of Execute

  /** Record n was queued under num and has not been activated since. */
  ghost predicate IsUnstarted(s: State, n: nat, num: int, targets: seq<Target>) {
    && n < |s.records| && s.records[n].targets == targets && !HasFailed(s.records[n].events)
    && num !in s.pending
    && (num in s.tasks ==> !s.tasks[num].active)
    && (if num in s.recordOf then s.recordOf[num] == n else !IsLiveRecord(s, n))
  }

  /** The step neither calls Execute for the number nor queues another transmission under it. */
  predicate LeavesAlone(s: State, step: Step, num: int) {
    && (step.Execute? ==> step.num != num)
    && (step.Queue? && step.num == num ==> !AllFree(s, step.keys))
  }

  lemma QueuedIsUnstarted(s: State, keys: seq<Key>, targets: seq<Target>, num: int, cfg: Config)
    requires Inv(s, cfg) && num !in s.tasks
    ensures IsUnstarted(Queued(s, keys, targets, num), |s.records|, num, targets)
  {
    OutOfTheWay(s, num, cfg);
  }

  /** What the steps other than Execute leave of an unstarted transmission: at most one event is added. */
  lemma VisitLeavesUnstarted(s: State, id: int, now: int, cfg: Config, n: nat, num: int, targets: seq<Target>)
    requires Inv(s, cfg) && IsUnstarted(s, n, num, targets)
    ensures IsUnstarted(Next(s, Visit(id, now), cfg), n, num, targets)
  {
    hide LiveAgrees, WellBehaved, MapsAgree;
    if ActsOn(s, id, now, cfg) {
      EveryActionIsRecorded(s, id, now, cfg);
      OthersStayRecorded(s, id, n, num, targets, cfg);
    }
  }

  /** Another live transmission has another record. */
  lemma OthersStayRecorded(s: State, id: int, n: nat, num: int, targets: seq<Target>, cfg: Config)
    requires Inv(s, cfg) && IsUnstarted(s, n, num, targets) && id in s.recordOf && id != num
    ensures s.recordOf[id] != n && (IsLiveRecord(s, n) ==> num in s.recordOf)
  {
    hide LiveAgrees;
  }

  lemma AckLeavesUnstarted(s: State, key: Key, from: Option<Target>, cfg: Config,
                           n: nat, num: int, targets: seq<Target>)
    requires Inv(s, cfg) && IsUnstarted(s, n, num, targets)
    ensures IsUnstarted(ApplyAck(s, key, from), n, num, targets)
  {
    hide LiveAgrees, WellBehaved, Without;
    if key in s.keyToId && from.Some? {
      var id := s.keyToId[key];
      LiveHasRecord(s, id, cfg);
      if id != num { OthersStayRecorded(s, id, n, num, targets, cfg); }
      NoteOfAck(s, id, from.value, cfg);
    }
  }

  lemma NoteOfAck(s: State, id: int, from: Target, cfg: Config)
    requires Inv(s, cfg) && id in s.recordOf
    ensures s.recordOf[id] < |s.records|
    ensures Note(s, id, Acked(from)) == s.records[s.recordOf[id] := Continued(s.records[s.recordOf[id]], Acked(from))]
    ensures !HasFailed(Continued(s.records[s.recordOf[id]], Acked(from)).events)
  {
    LiveHasRecord(s, id, cfg);
    var r := s.records[s.recordOf[id]];
    HistoryGrows(r.targets, r.events, Acked(from), cfg);
  }

  lemma RemovalLeavesUnstarted(s: State, cfg: Config, n: nat, num: int, targets: seq<Target>)
    requires Inv(s, cfg) && IsUnstarted(s, n, num, targets)
    ensures IsUnstarted(AllRemoved(s), n, num, targets)
  {
    if IsLiveRecord(s, n) {
      LiveIsNotOver(s, n, cfg);
      var r := s.records[n];
      HistoryGrows(r.targets, r.events, Removed, cfg);
    }
  }

  lemma StaysUnstarted(s: State, step: Step, cfg: Config, n: nat, num: int, targets: seq<Target>)
    requires Inv(s, cfg) && Possible(s, step) && !Apply(s, step, cfg).Desynced?
    requires IsUnstarted(s, n, num, targets) && LeavesAlone(s, step, num)
    ensures IsUnstarted(Next(s, step, cfg), n, num, targets)
  {
    hide Inv, ApplyVisit, ApplyAck, AllRemoved;
    match step {
      case Visit(id, now) => VisitLeavesUnstarted(s, id, now, cfg, n, num, targets);
      case Ack(key, from) => AckLeavesUnstarted(s, key, from, cfg, n, num, targets);
      case RemoveAll => RemovalLeavesUnstarted(s, cfg, n, num, targets);
      case _ =>
    }
  }

  lemma UnstartedThrowsExactly(s: State, cfg: Config, n: nat, num: int, targets: seq<Target>)
    requires Inv(s, cfg) && IsUnstarted(s, n, num, targets)
    ensures Apply(s, Execute(num), cfg) == UnknownNumber
       <==> WasRemoved(s.records[n].events) || HeardFromAll(s.records[n])
  {
    LiveExactly(s, n, cfg);
    hide LiveAgrees, HeardFromAll;
    assert num in s.tasks <==> num in s.recordOf;
    if num in s.recordOf { assert IsLiveRecord(s, n); }
  }

  lemma {:induction false} RunsStayUnstarted(states: seq<State>, steps: seq<Step>, cfg: Config, i: nat, j: nat, num: int)
    requires IsRun(states, steps, cfg) && i < j < |states|
    requires steps[i].Queue? && steps[i].num == num && AllFree(states[i], steps[i].keys)
    requires forall m | i < m < j :: LeavesAlone(states[m], steps[m], num)
    ensures Inv(states[j], cfg) && IsUnstarted(states[j], |states[i].records|, num, steps[i].targets)
    decreases j
  {
    hide Inv, Apply, Possible, IsUnstarted, LeavesAlone, Queued;
    var k, n, targets := j - 1, |states[i].records|, steps[i].targets;
    RunsKeepInv(states, steps, cfg, k);
    RunsKeepInv(states, steps, cfg, j);
    assert Leads(states[k], steps[k], states[j], cfg);
    if k == i {
      FirstUnstarted(states[i], steps[i], cfg);
    } else {
      RunsStayUnstarted(states, steps, cfg, i, k, num);
      StaysUnstarted(states[k], steps[k], cfg, n, num, targets);
    }
  }

  lemma FirstUnstarted(s: State, step: Step, cfg: Config)
    requires Inv(s, cfg) && Possible(s, step) && !Apply(s, step, cfg).Desynced?
    requires step.Queue? && AllFree(s, step.keys)
    ensures IsUnstarted(Next(s, step, cfg), |s.records|, step.num, step.targets)
  {
    hide Inv, IsUnstarted;
    QueuedIsUnstarted(s, step.keys, step.targets, step.num, cfg);
  }

  /**
    QueueTransmission makes its task known before it calls Execute. In every run, whatever comes in between except
    another use of the number, that call throws exactly when every target has acknowledged by then, or
    RemoveAllTransmissions has removed the transmission.
  */
  lemma ExecuteThrowsExactlyWhenOvertaken(states: seq<State>, steps: seq<Step>, cfg: Config, i: nat, j: nat, num: int)
    requires IsRun(states, steps, cfg) && i < j < |states|
    requires steps[i].Queue? && steps[i].num == num && AllFree(states[i], steps[i].keys)
    requires forall m | i < m < j :: LeavesAlone(states[m], steps[m], num)
    ensures var n := |states[i].records|;
            && n < |states[j].records| && states[j].records[n].targets == steps[i].targets
            && (Apply(states[j], Execute(num), cfg) == UnknownNumber
                <==> WasRemoved(states[j].records[n].events) || HeardFromAll(states[j].records[n]))
  {
    hide Inv, Apply, Possible, LeavesAlone;
    RunsStayUnstarted(states, steps, cfg, i, j, num);
    UnstartedThrowsExactly(states[j], cfg, |states[i].records|, num, steps[i].targets);
  }
}
