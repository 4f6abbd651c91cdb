/**
  What may happen to one transmission of src/common/transmit_queue.h over its life: acknowledgements,
  transmissions, the failure action and removal, in order of time. The protocol in TransmitProtocol.dfy keeps every
  transmission's history in this shape; what the shape means for users is proved here.
*/
module TransmitHistory {

  /** An entity that a transmission is sent to. */
  type Target(==, !new)

  const NANOS_PER_MS := 1_000_000
  const TWO_31 := 0x8000_0000
  const TWO_32 := 0x1_0000_0000

  /** The constructor arguments of the queue: milliseconds between retries, and number of transmissions. */
  datatype Config = Config(waitForRetries: int, numRetries: int)

  /** Clock readings are in nanoseconds. */
  datatype Event =
    | Acked(from: Target)
    | Sent(now: int, given: seq<Target>)
    | Failed(now: int)
    | Removed                      // by RemoveAllTransmissions

  // ---------------------------------------------------------------------------------------------
  // Elapsed time

  /** duration_cast to milliseconds: division that truncates toward zero. */
  function TruncatedMs(nanos: int): int { if nanos >= 0 then nanos / NANOS_PER_MS else -(-nanos / NANOS_PER_MS) }

  /** The narrowing of that count to a 32-bit int. */
  function Narrowed(x: int): int { (x + TWO_31) % TWO_32 - TWO_31 }

  function ElapsedMs(now: int, last: int): int { Narrowed(TruncatedMs(now - last)) }

  /** The clock was not set back by more than 2^31 ms since `last`: so far the narrowing keeps the count. */
  predicate NotFarBack(now: int, last: int) { now - last > -(TWO_31 + 1) * NANOS_PER_MS }

  /** A due retry comes more than the configured wait after the recorded transmission exactly in that case. */
  lemma DueIsLaterExactly(now: int, last: int, wait: nat)
    requires ElapsedMs(now, last) > wait
    ensures now - last >= (wait + 1) * 1_000_000 <==> NotFarBack(now, last)
    ensures NotFarBack(now, last) <==> last - now < 2_147_483_649 * 1_000_000
  {
    NarrowedIsAtMost(TruncatedMs(now - last));
  }

  lemma NarrowedIsAtMost(x: int)
    ensures x >= -TWO_31 ==> Narrowed(x) <= x
  {
  }

  /** With a clock that has moved forward by less than 2^31 ms, a retry is due exactly after the wait. */
  lemma DueAfterWaitExactly(now: int, last: int, wait: nat)
    requires 0 <= now - last < 2_147_483_648 * 1_000_000
    ensures ElapsedMs(now, last) > wait <==> now - last >= (wait + 1) * 1_000_000
  {
    assert TruncatedMs(now - last) == (now - last) / 1_000_000;
  }

  /** How far back the clock must go to make a retry due at once: between 2^31 and 2^32 - wait, in whole ms. */
  lemma StepBackMakesDueExactly(now: int, last: int, wait: nat)
    requires 0 <= last - now < TWO_32 * NANOS_PER_MS
    ensures ElapsedMs(now, last) > wait <==> TWO_31 < (last - now) / NANOS_PER_MS < TWO_32 - wait
  {
    var ms := (last - now) / NANOS_PER_MS;
    assert TruncatedMs(now - last) == -ms;
    assert Narrowed(-ms) == if ms <= TWO_31 then -ms else TWO_32 - ms;
  }

  // ---------------------------------------------------------------------------------------------
  // Reading a history

  function AckedIn(events: seq<Event>): set<Target> {
    if events == [] then {}
    else
      var last := events[|events| - 1];
      AckedIn(events[..|events| - 1]) + if last.Acked? then {last.from} else {}
  }

  function SendTimes(events: seq<Event>): seq<int> {
    if events == [] then []
    else
      var last := events[|events| - 1];
      SendTimes(events[..|events| - 1]) + if last.Sent? then [last.now] else []
  }

  predicate HasFailed(events: seq<Event>) { exists i | 0 <= i < |events| :: events[i].Failed? }

  predicate WasRemoved(events: seq<Event>) { exists i | 0 <= i < |events| :: events[i].Removed? }

  /** The targets, in their original order, that are not in the set. */
  function Without(targets: seq<Target>, gone: set<Target>): seq<Target> {
    if targets == [] then []
    else (if targets[0] in gone then [] else [targets[0]]) + Without(targets[1..], gone)
  }

  /** Some acknowledgement has come and no target is left. */
  predicate AllAcked(targets: seq<Target>, events: seq<Event>) {
    AckedIn(events) != {} && Without(targets, AckedIn(events)) == []
  }

  predicate IsOver(targets: seq<Target>, events: seq<Event>) {
    HasFailed(events) || WasRemoved(events) || AllAcked(targets, events)
  }

  predicate IsDue(events: seq<Event>, now: int, cfg: Config) {
    var times := SendTimes(events);
    times == [] || ElapsedMs(now, times[|times| - 1]) > cfg.waitForRetries
  }

  /** What each event requires of the events before it. */
  predicate Allowed(targets: seq<Target>, before: seq<Event>, e: Event, cfg: Config) {
    && !IsOver(targets, before)
    && match e
       case Acked(_) => true
       case Sent(now, given) =>
         && given == Without(targets, AckedIn(before))
         && |SendTimes(before)| < cfg.numRetries
         && IsDue(before, now, cfg)
       case Failed(now) => |SendTimes(before)| >= cfg.numRetries && IsDue(before, now, cfg)
       case Removed => true
  }

  predicate WellBehaved(targets: seq<Target>, events: seq<Event>, cfg: Config) {
    events == []
    || (WellBehaved(targets, events[..|events| - 1], cfg)
        && Allowed(targets, events[..|events| - 1], events[|events| - 1], cfg))
  }

  // ---------------------------------------------------------------------------------------------
  // What a well-behaved history means

  lemma {:induction false} EveryEventIsAllowed(targets: seq<Target>, events: seq<Event>, cfg: Config, i: nat)
    requires WellBehaved(targets, events, cfg) && i < |events|
    ensures WellBehaved(targets, events[..i], cfg) && Allowed(targets, events[..i], events[i], cfg)
    decreases |events|
  {
    var n := |events| - 1;
    if i < n {
      assert events[..n][..i] == events[..i];
      EveryEventIsAllowed(targets, events[..n], cfg, i);
    }
  }

  lemma EmptyHistory(targets: seq<Target>, cfg: Config)
    ensures WellBehaved(targets, [], cfg) && !IsOver(targets, []) && SendTimes([]) == [] && AckedIn([]) == {}
    ensures Without(targets, AckedIn([])) == targets
  {
    WithoutNothing(targets);
  }

  /** One more event that is allowed. */
  lemma HistoryGrows(targets: seq<Target>, events: seq<Event>, e: Event, cfg: Config)
    requires WellBehaved(targets, events, cfg) && Allowed(targets, events, e, cfg)
    ensures WellBehaved(targets, events + [e], cfg)
    ensures AckedIn(events + [e]) == AckedIn(events) + if e.Acked? then {e.from} else {}
    ensures SendTimes(events + [e]) == SendTimes(events) + if e.Sent? then [e.now] else []
    ensures HasFailed(events + [e]) <==> e.Failed?
    ensures WasRemoved(events + [e]) <==> e.Removed?
  {
    var longer := events + [e];
    assert longer[..|longer| - 1] == events;
    assert longer[|events|] == e;
    assert forall i | 0 <= i < |events| :: longer[i] == events[i];
  }

  /**
    Reliable broadcast: every transmission is given exactly the original targets, in order, without those
    that have acknowledged before it.
  */
  lemma EveryTransmissionIsToTheUnheard(targets: seq<Target>, events: seq<Event>, cfg: Config, i: nat)
    requires WellBehaved(targets, events, cfg) && i < |events| && events[i].Sent?
    ensures events[i].given == Without(targets, AckedIn(events[..i]))
  {
    EveryEventIsAllowed(targets, events, cfg, i);
  }

  /** Once all have acknowledged, the failure action has run, or it was removed, nothing happens any more. */
  lemma NothingAfterTheEnd(targets: seq<Target>, events: seq<Event>, cfg: Config, i: nat)
    requires WellBehaved(targets, events, cfg) && i <= |events| && IsOver(targets, events[..i])
    ensures i == |events|
  {
    if i < |events| {
      EveryEventIsAllowed(targets, events, cfg, i);
    }
  }

  function Max0(n: int): nat { if n < 0 then 0 else n }

  /** At most numRetries transmissions. */
  lemma {:induction false} TransmittedAtMost(targets: seq<Target>, events: seq<Event>, cfg: Config)
    requires WellBehaved(targets, events, cfg)
    ensures |SendTimes(events)| <= Max0(cfg.numRetries)
    decreases |events|
  {
    if events != [] {
      TransmittedAtMost(targets, events[..|events| - 1], cfg);
    }
  }

  /** The failure action runs at most once, last of all, and only after exactly numRetries transmissions. */
  lemma FailsOnceAfterAllRetries(targets: seq<Target>, events: seq<Event>, cfg: Config, i: nat)
    requires WellBehaved(targets, events, cfg) && i < |events| && events[i].Failed?
    ensures i == |events| - 1
    ensures |SendTimes(events[..i])| == Max0(cfg.numRetries)
  {
    EveryEventIsAllowed(targets, events, cfg, i);
    TransmittedAtMost(targets, events[..i], cfg);
    assert events[..i + 1][i].Failed?;
    NothingAfterTheEnd(targets, events, cfg, i + 1);
  }

  predicate IsTimed(e: Event) { e.Sent? || e.Failed? }

  /** No action of the history takes place more than 2^31 ms before the transmission recorded last. */
  predicate SteadyClock(events: seq<Event>) {
    events == []
    || (var before, e := events[..|events| - 1], events[|events| - 1];
        && SteadyClock(before)
        && (IsTimed(e) && SendTimes(before) != [] ==> NotFarBack(e.now, SendTimes(before)[|SendTimes(before)| - 1])))
  }

  /** Every action comes more than the configured wait after the transmission recorded last. */
  predicate Spaced(events: seq<Event>, wait: nat) {
    events == []
    || (var before, e := events[..|events| - 1], events[|events| - 1];
        && Spaced(before, wait)
        && (IsTimed(e) && SendTimes(before) != [] ==>
              e.now - SendTimes(before)[|SendTimes(before)| - 1] >= (wait + 1) * NANOS_PER_MS))
  }

  /** Transmissions and failure are properly spaced exactly when the clock is never set far back. */
  lemma {:induction false} SpacedExactly(targets: seq<Target>, events: seq<Event>, cfg: Config)
    requires WellBehaved(targets, events, cfg) && cfg.waitForRetries >= 0
    ensures Spaced(events, cfg.waitForRetries) <==> SteadyClock(events)
    decreases |events|
  {
    if events != [] {
      var before, e := events[..|events| - 1], events[|events| - 1];
      SpacedExactly(targets, before, cfg);
      if IsTimed(e) && SendTimes(before) != [] {
        DueIsLaterExactly(e.now, SendTimes(before)[|SendTimes(before)| - 1], cfg.waitForRetries);
      }
    }
  }

  ghost predicate HaveGaps(t: seq<int>, gap: int) { forall i, j | 0 <= i < j < |t| && j == i + 1 :: t[j] - t[i] >= gap }

  lemma LaterKeepsGaps(t: seq<int>, now: int, gap: int)
    requires HaveGaps(t, gap) && (t != [] ==> now - t[|t| - 1] >= gap)
    ensures HaveGaps(t + [now], gap)
  {
  }

  /** Successive transmissions are spaced. */
  lemma {:induction false} SendTimesAreSpaced(events: seq<Event>, wait: nat)
    requires Spaced(events, wait)
    ensures HaveGaps(SendTimes(events), (wait + 1) * NANOS_PER_MS)
    decreases |events|
  {
    if events != [] {
      var before, e := events[..|events| - 1], events[|events| - 1];
      SendTimesAreSpaced(before, wait);
      if e.Sent? {
        LaterKeepsGaps(SendTimes(before), e.now, (wait + 1) * NANOS_PER_MS);
      } else {
        assert SendTimes(events) == SendTimes(before) + [];
      }
    }
  }

  lemma OneMoreGap(n: int, gap: int)
    ensures n * gap == (n - 1) * gap + gap
  {
    assert (n - 1) * gap + 1 * gap == (n - 1 + 1) * gap;
  }

  lemma {:induction false} SpacedTimesAddUp(t: seq<int>, gap: nat)
    requires t != [] && HaveGaps(t, gap)
    ensures t[|t| - 1] - t[0] >= (|t| - 1) * gap
    decreases |t|
  {
    if |t| == 1 {
      assert (|t| - 1) * gap == 0 * gap == 0;
    } else {
      var front := t[..|t| - 1];
      SpacedTimesAddUp(front, gap);
      assert front[|front| - 1] == t[|t| - 2] && front[0] == t[0];
      assert t[|t| - 1] - t[|t| - 2] >= gap;
      OneMoreGap(|t| - 1, gap);
      assert (|front| - 1) * gap == (|t| - 1 - 1) * gap;
    }
  }

  /**
    When actions are properly spaced, the failure action comes no sooner than numRetries times (wait + 1) ms after
    the first transmission.
  */
  lemma FailureComesLate(targets: seq<Target>, events: seq<Event>, cfg: Config)
    requires WellBehaved(targets, events, cfg) && cfg.waitForRetries >= 0 && cfg.numRetries >= 1
    requires events != [] && events[|events| - 1].Failed? && Spaced(events, cfg.waitForRetries)
    ensures SendTimes(events) != []
    ensures events[|events| - 1].now - SendTimes(events)[0]
         >= cfg.numRetries * ((cfg.waitForRetries + 1) * NANOS_PER_MS)
  {
    hide WellBehaved, Allowed;
    var before, e := events[..|events| - 1], events[|events| - 1];
    var t := SendTimes(before);
    var gap := (cfg.waitForRetries + 1) * NANOS_PER_MS;
    assert SendTimes(events) == t + [];
    FailsOnceAfterAllRetries(targets, events, cfg, |events| - 1);
    SendTimesAreSpaced(before, cfg.waitForRetries);
    SpacedTimesAddUp(t, gap);
    OneMoreGap(|t|, gap);
    assert |t| == cfg.numRetries;
  }

  // ---------------------------------------------------------------------------------------------
  // The clock does matter

  const FAR_BACK := -(TWO_31 + 1) * NANOS_PER_MS

  /** Transmissions to targets that do not answer, each at a clock set far back from the one before. */
  function DriftingBack(targets: seq<Target>, k: nat): seq<Event> {
    if k == 0 then [] else DriftingBack(targets, k - 1) + [Sent((k - 1) * FAR_BACK, targets)]
  }

  lemma FarBackIsDue(last: int, wait: nat)
    requires wait < TWO_31 - 1
    ensures ElapsedMs(last + FAR_BACK, last) > wait && !NotFarBack(last + FAR_BACK, last)
  {
    assert TruncatedMs(FAR_BACK) == -(TWO_31 + 1);
  }

  /** A due transmission while nobody has answered. */
  lemma UnansweredSend(targets: seq<Target>, before: seq<Event>, now: int, cfg: Config)
    requires WellBehaved(targets, before, cfg) && !IsOver(targets, before) && AckedIn(before) == {}
    requires |SendTimes(before)| < cfg.numRetries && IsDue(before, now, cfg)
    ensures var events := before + [Sent(now, targets)];
            && WellBehaved(targets, events, cfg) && !IsOver(targets, events) && AckedIn(events) == {}
            && SendTimes(events) == SendTimes(before) + [now]
  {
    WithoutNothing(targets);
    HistoryGrows(targets, before, Sent(now, targets), cfg);
  }

  lemma {:induction false} DriftingBackIsAllowed(targets: seq<Target>, k: nat, cfg: Config)
    requires 0 <= cfg.waitForRetries < TWO_31 - 1 && k <= cfg.numRetries
    ensures var events := DriftingBack(targets, k);
            && WellBehaved(targets, events, cfg) && !IsOver(targets, events) && AckedIn(events) == {}
            && |SendTimes(events)| == k
            && (k > 0 ==> SendTimes(events)[0] == 0 && SendTimes(events)[k - 1] == (k - 1) * FAR_BACK)
    decreases k
  {
    hide WellBehaved, Allowed, IsOver, AckedIn, SendTimes;
    EmptyHistory(targets, cfg);
    if k > 0 {
      DriftingBackIsAllowed(targets, k - 1, cfg);
      if k > 1 { FarBackIsDue((k - 2) * FAR_BACK, cfg.waitForRetries); }
      UnansweredSend(targets, DriftingBack(targets, k - 1), (k - 1) * FAR_BACK, cfg);
    }
  }

  /**
    Without a steady clock the bound fails for every configuration: all numRetries transmissions and the failure
    action can come with clock readings that only go back.
  */
  lemma FailureCanComeEarly(targets: seq<Target>, cfg: Config) returns (events: seq<Event>)
    requires 0 <= cfg.waitForRetries < TWO_31 - 1 && cfg.numRetries >= 1
    ensures WellBehaved(targets, events, cfg) && |SendTimes(events)| == cfg.numRetries
    ensures events != [] && events[|events| - 1].Failed?
    ensures events[|events| - 1].now < SendTimes(events)[0]
    ensures cfg.numRetries >= 2 ==> SendTimes(events)[cfg.numRetries - 1] < SendTimes(events)[0]
  {
    hide AckedIn, Without, WellBehaved, SendTimes, DriftingBack;
    var k := cfg.numRetries;
    var before := DriftingBack(targets, k);
    DriftingBackIsAllowed(targets, k, cfg);
    FarBackIsDue((k - 1) * FAR_BACK, cfg.waitForRetries);
    var e := Failed((k - 1) * FAR_BACK + FAR_BACK);
    HistoryGrows(targets, before, e, cfg);
    events := before + [e];
    assert SendTimes(events) == SendTimes(before) + [];
  }

  // ---------------------------------------------------------------------------------------------
  // Lists of targets

  /** Erasing one target from the unheard ones is the list without one more acknowledgement. */
  lemma {:induction false} WithoutOneMore(targets: seq<Target>, gone: set<Target>, t: Target)
    ensures Without(Without(targets, gone), {t}) == Without(targets, gone + {t})
  {
    if targets != [] {
      WithoutOneMore(targets[1..], gone, t);
      var rest := Without(targets[1..], gone);
      if targets[0] in gone {
        assert Without(targets, gone) == rest;
        assert Without(targets, gone + {t}) == Without(targets[1..], gone + {t});
      } else {
        assert ([targets[0]] + rest)[1..] == rest;
      }
    }
  }

  lemma {:induction false} WithoutNothing(targets: seq<Target>)
    ensures Without(targets, {}) == targets
  {
    if targets != [] { WithoutNothing(targets[1..]); }
  }

  lemma {:induction false} WithoutInParts(a: seq<Target>, b: seq<Target>, gone: set<Target>)
    ensures Without(a + b, gone) == Without(a, gone) + Without(b, gone)
  {
    if a == [] {
      assert a + b == b;
    } else {
      WithoutInParts(a[1..], b, gone);
      assert (a + b)[1..] == a[1..] + b;
      var first: seq<Target> := if a[0] in gone then [] else [a[0]];
      assert first + (Without(a[1..], gone) + Without(b, gone)) == first + Without(a[1..], gone) + Without(b, gone);
    }
  }

  /** Each target is kept in its place or left out. */
  lemma WithoutOnePlace(before: seq<Target>, t: Target, after: seq<Target>, gone: set<Target>)
    ensures Without(before + [t] + after, gone)
         == Without(before, gone) + (if t in gone then [] else [t]) + Without(after, gone)
  {
    WithoutInParts(before + [t], after, gone);
    WithoutInParts(before, [t], gone);
    assert [t][1..] == [];
    assert Without([t], gone) == if t in gone then [] else [t];
  }

  lemma {:induction false} WithoutMember(targets: seq<Target>, gone: set<Target>, t: Target)
    ensures t in Without(targets, gone) <==> t in targets && t !in gone
  {
    if targets != [] {
      WithoutMember(targets[1..], gone, t);
      assert targets == [targets[0]] + targets[1..];
    }
  }

  /** All acknowledged, for a non-empty list of targets: each of them has acknowledged. */
  lemma AllAckedExactly(targets: seq<Target>, events: seq<Event>)
    requires targets != []
    ensures AllAcked(targets, events) <==> forall t | t in targets :: t in AckedIn(events)
  {
    var rest := Without(targets, AckedIn(events));
    forall t: Target
      ensures t in rest <==> t in targets && t !in AckedIn(events)
    {
      WithoutMember(targets, AckedIn(events), t);
    }
    assert targets[0] in targets;
    assert rest != [] ==> rest[0] in rest;
  }
}
