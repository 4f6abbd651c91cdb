/**
  The histories of TransmitHistory.dfy are no more than what can happen: every well-behaved history is that of
  a transmission in some run of the protocol. With TransmitRuns.dfy, where every history is shown to be well
  behaved, the two are the same, and what fails of a well-behaved history fails of some run.
*/
module TransmitReachable {
  import opened Wrappers
  import opened TransmitHistory
  import opened TransmitProtocol
  import opened TransmitRuns

  /** The only transmission so far, under one key. */
  ghost predicate IsOnly(s: State, key: Key, num: int, r: Record, cfg: Config) {
    && Inv(s, cfg)
    && s.records == [r] && r.keys == [key]
    && s.recordOf.Keys <= {num}
    && (num in s.recordOf ==> s.tasks[num].active)
  }

  /** The step that makes an event happen. */
  function StepOf(key: Key, num: int, e: Event): Step {
    match e
    case Acked(from) => Ack(key, Some(from))
    case Sent(now, _) => Visit(num, now)
    case Failed(now) => Visit(num, now)
    case Removed => RemoveAll
  }

  lemma OnlyIsLive(s: State, key: Key, num: int, r: Record, cfg: Config)
    requires IsOnly(s, key, num, r, cfg) && !IsOver(r.targets, r.events)
    ensures s.recordOf == map[num := 0] && s.idToKeys == map[num := [key]]
    ensures num in s.idToTargets && num in s.tasks && s.tasks[num].active
    ensures Agrees(r, [key], s.idToTargets[num], s.tasks[num])
    ensures key in s.keyToId && s.keyToId[key] == num
  {
    assert IsLiveRecord(s, 0);
    var id :| id in s.recordOf && s.recordOf[id] == 0;
    assert id == num && LiveAgrees(s, num);
    assert key in [key];
  }

  lemma AckHappens(s: State, key: Key, num: int, r: Record, from: Target, cfg: Config)
    requires IsOnly(s, key, num, r, cfg) && Allowed(r.targets, r.events, Acked(from), cfg)
    ensures IsOnly(ApplyAck(s, key, Some(from)), key, num, Continued(r, Acked(from)), cfg)
  {
    hide MapsAgree, QueueAgrees, HistoryAgrees, Agrees, IsOver, Without;
    OnlyIsLive(s, key, num, r, cfg);
    AckKeepsInv(s, key, Some(from), cfg);
    assert Note(s, num, Acked(from)) == [Continued(r, Acked(from))];
  }

  lemma SendHappens(s: State, key: Key, num: int, r: Record, now: int, given: seq<Target>, cfg: Config)
    requires IsOnly(s, key, num, r, cfg) && Allowed(r.targets, r.events, Sent(now, given), cfg)
    ensures ApplyVisit(s, num, now, cfg).Ok?
    ensures IsOnly(ApplyVisit(s, num, now, cfg).next, key, num, Continued(r, Sent(now, given)), cfg)
  {
    hide MapsAgree, QueueAgrees, HistoryAgrees, IsOver, Without;
    OnlyIsLive(s, key, num, r, cfg);
    VisitKeepsInv(s, num, now, cfg);
    assert Note(s, num, Sent(now, given)) == [Continued(r, Sent(now, given))];
  }

  lemma FailureHappens(s: State, key: Key, num: int, r: Record, now: int, cfg: Config)
    requires IsOnly(s, key, num, r, cfg) && Allowed(r.targets, r.events, Failed(now), cfg)
    ensures ApplyVisit(s, num, now, cfg).Ok?
    ensures IsOnly(ApplyVisit(s, num, now, cfg).next, key, num, Continued(r, Failed(now)), cfg)
  {
    hide MapsAgree, QueueAgrees, HistoryAgrees, IsOver, Without;
    OnlyIsLive(s, key, num, r, cfg);
    VisitKeepsInv(s, num, now, cfg);
    assert Note(s, num, Failed(now)) == [Continued(r, Failed(now))];
  }

  lemma RemovalHappens(s: State, key: Key, num: int, r: Record, cfg: Config)
    requires IsOnly(s, key, num, r, cfg) && Allowed(r.targets, r.events, Removed, cfg)
    ensures AllKeyed(s) && IsOnly(AllRemoved(s), key, num, Continued(r, Removed), cfg)
  {
    hide MapsAgree, QueueAgrees, HistoryAgrees, Agrees, IsOver;
    OnlyIsLive(s, key, num, r, cfg);
    RemoveAllKeepsInvExactly(s, cfg);
    assert s.recordOf[num] == 0;
    assert AllRemoved(s).records == [Continued(r, Removed)];
  }

  /** An event that is allowed can be made to happen. */
  lemma EventHappens(s: State, key: Key, num: int, r: Record, e: Event, cfg: Config)
    requires IsOnly(s, key, num, r, cfg) && Allowed(r.targets, r.events, e, cfg)
    ensures var step := StepOf(key, num, e);
            && Leads(s, step, Next(s, step, cfg), cfg)
            && IsOnly(Next(s, step, cfg), key, num, Continued(r, e), cfg)
  {
    hide IsOnly, Allowed, ApplyAck, ApplyVisit, AllRemoved, AllKeyed;
    match e {
      case Acked(from) => AckHappens(s, key, num, r, from, cfg);
      case Sent(now, given) => SendHappens(s, key, num, r, now, given, cfg);
      case Failed(now) => FailureHappens(s, key, num, r, now, cfg);
      case Removed => RemovalHappens(s, key, num, r, cfg);
    }
  }

  lemma RunGoesOn(states: seq<State>, steps: seq<Step>, step: Step, t: State, cfg: Config)
    requires IsRun(states, steps, cfg) && Leads(states[|steps|], step, t, cfg)
    ensures IsRun(states + [t], steps + [step], cfg)
  {
    hide Leads;
    var more, longer := states + [t], steps + [step];
    forall i, j | 0 <= i < |longer| && j == i + 1
      ensures Leads(more[i], longer[i], more[j], cfg)
    {
      if i < |steps| { assert Leads(states[i], steps[i], states[j], cfg); }
    }
  }

  /** A run that queues and activates one transmission. */
  lemma StartOf(key: Key, num: int, targets: seq<Target>, cfg: Config)
    returns (states: seq<State>, steps: seq<Step>)
    ensures IsRun(states, steps, cfg)
    ensures IsOnly(states[|steps|], key, num, Record([key], targets, []), cfg)
  {
    hide HistoryAgrees;
    InitialIsInv(cfg);
    QueueKeepsInv(INITIAL, [key], targets, num, cfg);
    var queued := Queued(INITIAL, [key], targets, num);
    var started := Next(queued, Execute(num), cfg);
    ExecuteKeepsInv(queued, num, cfg);
    assert Leads(INITIAL, Queue([key], targets, num), queued, cfg);
    assert Leads(queued, Execute(num), started, cfg);
    states, steps := [INITIAL, queued, started], [Queue([key], targets, num), Execute(num)];
  }

  /** Every well-behaved history happens in some run. */
  lemma {:induction false} WellBehavedIsReachable(key: Key, num: int, targets: seq<Target>, events: seq<Event>,
                                                  cfg: Config)
    returns (states: seq<State>, steps: seq<Step>)
    requires WellBehaved(targets, events, cfg)
    ensures IsRun(states, steps, cfg)
    ensures IsOnly(states[|steps|], key, num, Record([key], targets, events), cfg)
    decreases |events|
  {
    hide IsOnly, Leads, Allowed;
    if events == [] {
      states, steps := StartOf(key, num, targets, cfg);
    } else {
      var before, e := events[..|events| - 1], events[|events| - 1];
      states, steps := WellBehavedIsReachable(key, num, targets, before, cfg);
      var r, step, s := Record([key], targets, before), StepOf(key, num, e), states[|steps|];
      EventHappens(s, key, num, r, e, cfg);
      RunGoesOn(states, steps, step, Next(s, step, cfg), cfg);
      assert before + [e] == events;
      states, steps := states + [Next(s, step, cfg)], steps + [step];
    }
  }

  /** The only record of the state at the end of a run that has no other. */
  ghost predicate EndsWith(states: seq<State>, steps: seq<Step>, key: Key, targets: seq<Target>, events: seq<Event>) {
    |states| == |steps| + 1 && states[|steps|].records == [Record([key], targets, events)]
  }

  /** A history is that of a transmission in some run exactly when it is well behaved. */
  lemma HappensExactly(key: Key, targets: seq<Target>, events: seq<Event>, cfg: Config)
    ensures (exists states, steps :: IsRun(states, steps, cfg) && EndsWith(states, steps, key, targets, events))
       <==> WellBehaved(targets, events, cfg)
  {
    hide Leads, WellBehaved;
    if WellBehaved(targets, events, cfg) {
      var states, steps := WellBehavedIsReachable(key, 0, targets, events, cfg);
      assert IsRun(states, steps, cfg) && EndsWith(states, steps, key, targets, events);
    }
    forall states, steps | IsRun(states, steps, cfg) && EndsWith(states, steps, key, targets, events)
      ensures WellBehaved(targets, events, cfg)
    {
      LastIsWellBehaved(states, steps, cfg);
    }
  }

  lemma LastIsWellBehaved(states: seq<State>, steps: seq<Step>, cfg: Config)
    requires IsRun(states, steps, cfg) && |states[|steps|].records| == 1
    ensures var r := states[|steps|].records[0]; WellBehaved(r.targets, r.events, cfg)
  {
    DequeuedExactlyWhenOver(states, steps, cfg, |steps|, 0);
  }

  lemma ProductIsNatural(a: nat, b: nat)
    ensures a * b >= 0
  {
  }

  /**
    The clock does matter: with every sensible configuration there is a run in which all transmissions are made
    and the failure action runs although the clock has only gone back.
  */
  lemma SomeRunFailsEarly(key: Key, targets: seq<Target>, cfg: Config)
    returns (states: seq<State>, steps: seq<Step>, events: seq<Event>)
    requires 0 <= cfg.waitForRetries < TWO_31 - 1 && cfg.numRetries >= 1
    ensures IsRun(states, steps, cfg) && EndsWith(states, steps, key, targets, events)
    ensures |SendTimes(events)| == cfg.numRetries && events != [] && events[|events| - 1].Failed?
    ensures events[|events| - 1].now < SendTimes(events)[0] && !Spaced(events, cfg.waitForRetries)
    ensures cfg.numRetries >= 2 ==> SendTimes(events)[cfg.numRetries - 1] < SendTimes(events)[0]
  {
    hide Leads, WellBehaved;
    events := FailureCanComeEarly(targets, cfg);
    states, steps := WellBehavedIsReachable(key, 0, targets, events, cfg);
    if Spaced(events, cfg.waitForRetries) {
      FailureComesLate(targets, events, cfg);
      ProductIsNatural(cfg.numRetries, (cfg.waitForRetries + 1) * NANOS_PER_MS);
    }
  }
}
