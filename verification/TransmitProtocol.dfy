/**
  The reliable transmit queue with its keyed wrapper (src/common/transmit_queue.h) as a protocol: every call,
  every visit of a task in a pass of the queue's thread, and every detached removal is one atomic step. The
  invariant over all interleavings of these steps ties the three maps of the wrapper, the tasks of the
  queue and the history of every transmission together. TransmitQueue.dfy refines the steps.
*/
module TransmitProtocol {
  import opened TransmitHistory
  import opened Wrappers

  /** An object by which transmissions are dequeued. */
  type Key(==, !new)

  datatype Task = Task(numTries: nat, lastTransmit: int, active: bool)

  /** History: what a transmission was queued with and what has happened to it. */
  datatype Record = Record(keys: seq<Key>, targets: seq<Target>, events: seq<Event>)

  datatype State = State(
    tasks: map<int, Task>,                 // m_ActiveTransmits
    keyToId: map<Key, int>,                // m_ActiveTransmissions
    idToKeys: map<int, seq<Key>>,          // m_ActiveTransmissionsToKeyMap
    idToTargets: map<int, seq<Target>>,    // m_ActiveTransmissionToTargets
    pending: set<int>,                     // ids captured by detached removal threads
    recordOf: map<int, nat>,               // history: the record of each live id
    records: seq<Record>)

  const INITIAL := State(map[], map[], map[], map[], {}, map[], [])

  datatype Step =
    | Queue(keys: seq<Key>, targets: seq<Target>, num: int)   // QueueTransmission up to its call of Execute
    | Execute(num: int)
    | Visit(id: int, now: int)                                // one task in a pass of the queue's thread
    | Ack(key: Key, from: Option<Target>)                     // RemoveTransmission
    | Reap(id: int)                                           // a detached removal thread runs
    | RemoveAll                                               // RemoveAllTransmissions

  /** The exceptions of the source. */
  datatype Outcome = Ok(next: State) | Desynced | UnknownNumber | OutOfRange

  // ---------------------------------------------------------------------------------------------
  // Steps

  function Elems<T>(s: seq<T>): set<T> { set x | x in s }

  /** History: one more event of the transmission with this id. */
  function Note(s: State, id: int, e: Event): seq<Record> {
    if id in s.recordOf && s.recordOf[id] < |s.records| then
      var n := s.recordOf[id];
      s.records[n := s.records[n].(events := s.records[n].events + [e])]
    else s.records
  }

  /** The wrapper forgets a transmission: all its keys become free together. */
  function Forget(s: State, id: int): State {
    s.(keyToId := if id in s.idToKeys then s.keyToId - Elems(s.idToKeys[id]) else s.keyToId,
       idToKeys := s.idToKeys - {id},
       idToTargets := s.idToTargets - {id},
       recordOf := s.recordOf - {id})
  }

  function IsTaskDue(t: Task, now: int, cfg: Config): bool {
    t.numTries == 0 || ElapsedMs(now, t.lastTransmit) > cfg.waitForRetries
  }

  /** The state after a transmission has been queued under free keys and a number not in use. */
  function Queued(s: State, keys: seq<Key>, targets: seq<Target>, num: int): State {
    State(s.tasks[num := Task(0, 0, false)],
          s.keyToId + (map k | k in keys :: num),
          s.idToKeys[num := keys],
          s.idToTargets[num := targets],
          s.pending,
          s.recordOf[num := |s.records|],
          s.records + [Record(keys, targets, [])])
  }

  predicate AllFree(s: State, keys: seq<Key>) { forall k | k in keys :: k !in s.keyToId }

  function ApplyQueue(s: State, keys: seq<Key>, targets: seq<Target>, num: int): Outcome {
    if !AllFree(s, keys) then Ok(s)
    else if num in s.idToKeys || num in s.idToTargets then Desynced
    else Ok(Queued(s, keys, targets, num))
  }

  function ApplyVisit(s: State, id: int, now: int, cfg: Config): Outcome {
    if id !in s.tasks || !s.tasks[id].active || !IsTaskDue(s.tasks[id], now, cfg) then Ok(s)
    else if s.tasks[id].numTries >= cfg.numRetries then
      if id !in s.idToKeys then OutOfRange
      else
        var noted := s.(records := Note(s, id, Failed(now)));
        Ok(Forget(noted, id).(tasks := s.tasks[id := s.tasks[id].(active := false)], pending := s.pending + {id}))
    else if id !in s.idToTargets then OutOfRange
    else
      Ok(s.(tasks := s.tasks[id := Task(s.tasks[id].numTries + 1, now, s.tasks[id].active)],
            records := Note(s, id, Sent(now, s.idToTargets[id]))))
  }

  function ApplyAck(s: State, key: Key, from: Option<Target>): State {
    if key !in s.keyToId then s
    else
      var id := s.keyToId[key];
      if id !in s.idToTargets then Forget(s, id).(tasks := s.tasks - {id})
      else if from.None? then s
      else
        var rest := Without(s.idToTargets[id], {from.value});
        var noted := s.(idToTargets := s.idToTargets[id := rest], records := Note(s, id, Acked(from.value)));
        if rest == [] then Forget(noted, id).(tasks := s.tasks - {id}) else noted
  }

  /** RemoveAllTransmissions: the list of unheard targets of every id stays behind. */
  function AllRemoved(s: State): State {
    s.(tasks := s.tasks - s.keyToId.Values, keyToId := map[], idToKeys := map[], recordOf := map[],
       records := seq(|s.records|, n requires 0 <= n < |s.records| =>
                    if IsLiveRecord(s, n) then Continued(s.records[n], Removed) else s.records[n]))
  }

  predicate IsLiveRecord(s: State, n: nat) { exists id | id in s.recordOf :: s.recordOf[id] == n }

  /** The record after one more event. */
  function Continued(r: Record, e: Event): Record { r.(events := r.events + [e]) }

  function Apply(s: State, step: Step, cfg: Config): Outcome {
    match step
    case Queue(keys, targets, num) => ApplyQueue(s, keys, targets, num)
    case Execute(num) =>
      if num !in s.tasks then UnknownNumber
      else Ok(s.(tasks := s.tasks[num := s.tasks[num].(active := true)]))
    case Visit(id, now) => ApplyVisit(s, id, now, cfg)
    case Ack(key, from) => Ok(ApplyAck(s, key, from))
    case Reap(id) => Ok(s.(tasks := s.tasks - {id}, pending := s.pending - {id}))
    case RemoveAll => Ok(AllRemoved(s))
  }

  predicate AllKeyed(s: State) { forall id | id in s.idToKeys :: s.idToKeys[id] != [] }

  /**
    Which steps can be taken: the number drawn for a new transmission is one that the queue does not hold
    (the loop that draws it ends no sooner), a removal thread exists for a captured id only, Execute is not
    called again for an id whose failure action has run, and RemoveAllTransmissions is not called while a
    transmission without keys is queued, which it would leave in the queue.
  */
  predicate Possible(s: State, step: Step) {
    match step
    case Queue(_, _, num) => num !in s.tasks
    case Execute(num) => num !in s.pending
    case Reap(id) => id in s.pending
    case RemoveAll => AllKeyed(s)
    case _ => true
  }

  // ---------------------------------------------------------------------------------------------
  // The invariant

  /** key→id and id→keys are mutually inverse, and every id with keys has targets. */
  predicate MapsAgree(s: State) {
    && (forall k | k in s.keyToId :: s.keyToId[k] in s.idToKeys && k in s.idToKeys[s.keyToId[k]])
    && (forall id, k | id in s.idToKeys && k in s.idToKeys[id] :: k in s.keyToId && s.keyToId[k] == id)
    && s.idToKeys.Keys <= s.idToTargets.Keys
  }

  /** The ids of which only the list of unheard targets is left. */
  function Stale(s: State): set<int> { s.idToTargets.Keys - s.idToKeys.Keys }

  /** The queue holds exactly the live ids and the failed ones that wait for their removal; those are inactive. */
  predicate QueueAgrees(s: State) {
    && s.tasks.Keys == s.idToKeys.Keys + s.pending
    && s.idToKeys.Keys !! s.pending
    && forall id | id in s.pending :: !s.tasks[id].active && id !in s.idToTargets
  }

  /** What the maps and the task say of a live transmission is what its record says. */
  predicate Agrees(r: Record, keys: seq<Key>, unheard: seq<Target>, t: Task) {
    && r.keys == keys
    && !IsOver(r.targets, r.events)
    && unheard == Without(r.targets, AckedIn(r.events))
    && t.numTries == |SendTimes(r.events)|
    && (t.numTries > 0 ==> t.lastTransmit == SendTimes(r.events)[t.numTries - 1])
  }

  predicate LiveAgrees(s: State, id: int)
    requires id in s.recordOf && id in s.idToKeys && id in s.idToTargets && id in s.tasks
  {
    && s.recordOf[id] < |s.records|
    && Agrees(s.records[s.recordOf[id]], s.idToKeys[id], s.idToTargets[id], s.tasks[id])
  }

  ghost predicate HistoryAgrees(s: State, cfg: Config)
    requires MapsAgree(s) && QueueAgrees(s)
  {
    && s.recordOf.Keys == s.idToKeys.Keys
    && (forall id | id in s.recordOf :: LiveAgrees(s, id))
    && (forall a, b | a in s.recordOf && b in s.recordOf && a != b :: s.recordOf[a] != s.recordOf[b])
    && forall n | 0 <= n < |s.records| ::
         && WellBehaved(s.records[n].targets, s.records[n].events, cfg)
         && (IsOver(s.records[n].targets, s.records[n].events) || IsLiveRecord(s, n))
  }

  ghost predicate Inv(s: State, cfg: Config) { MapsAgree(s) && QueueAgrees(s) && HistoryAgrees(s, cfg) }

  lemma InitialIsInv(cfg: Config)
    ensures Inv(INITIAL, cfg)
  {
  }

  // ---------------------------------------------------------------------------------------------
  // Histories grow by allowed events

  lemma SentAgrees(r: Record, keys: seq<Key>, unheard: seq<Target>, t: Task, now: int, cfg: Config)
    requires WellBehaved(r.targets, r.events, cfg) && Agrees(r, keys, unheard, t)
    requires IsTaskDue(t, now, cfg) && t.numTries < cfg.numRetries
    ensures Allowed(r.targets, r.events, Sent(now, unheard), cfg)
    ensures Agrees(Continued(r, Sent(now, unheard)), keys, unheard, Task(t.numTries + 1, now, t.active))
  {
    hide WellBehaved, AckedIn, SendTimes, Without, HasFailed, WasRemoved;
    HistoryGrows(r.targets, r.events, Sent(now, unheard), cfg);
    assert AckedIn(r.events) + {} == AckedIn(r.events);
  }

  lemma FailedAgrees(r: Record, keys: seq<Key>, unheard: seq<Target>, t: Task, now: int, cfg: Config)
    requires WellBehaved(r.targets, r.events, cfg) && Agrees(r, keys, unheard, t)
    requires IsTaskDue(t, now, cfg) && t.numTries >= cfg.numRetries
    ensures Allowed(r.targets, r.events, Failed(now), cfg)
    ensures IsOver(Continued(r, Failed(now)).targets, Continued(r, Failed(now)).events)
  {
    hide WellBehaved, AckedIn, SendTimes, Without, HasFailed, WasRemoved;
    HistoryGrows(r.targets, r.events, Failed(now), cfg);
  }

  /** The transmission is over with this acknowledgement just when no target is left. */
  lemma AckedAgrees(r: Record, keys: seq<Key>, unheard: seq<Target>, t: Task, from: Target, cfg: Config)
    requires WellBehaved(r.targets, r.events, cfg) && Agrees(r, keys, unheard, t)
    ensures Allowed(r.targets, r.events, Acked(from), cfg)
    ensures var rest, longer := Without(unheard, {from}), Continued(r, Acked(from));
            if rest == [] then IsOver(longer.targets, longer.events) else Agrees(longer, keys, rest, t)
  {
    hide WellBehaved, AckedIn, SendTimes, Without, HasFailed, WasRemoved;
    HistoryGrows(r.targets, r.events, Acked(from), cfg);
    WithoutOneMore(r.targets, AckedIn(r.events), from);
    assert AckedIn(Continued(r, Acked(from)).events) == AckedIn(r.events) + {from};
    assert SendTimes(r.events) + [] == SendTimes(r.events);
  }

  /** A live transmission can always be removed; then it is over. */
  lemma RemovedAgrees(r: Record, cfg: Config)
    requires WellBehaved(r.targets, r.events, cfg) && !IsOver(r.targets, r.events)
    ensures WellBehaved(r.targets, Continued(r, Removed).events, cfg)
    ensures IsOver(r.targets, Continued(r, Removed).events)
  {
    HistoryGrows(r.targets, r.events, Removed, cfg);
  }

  // ---------------------------------------------------------------------------------------------
  // Every step keeps the invariant

  /** A number that the queue does not hold is not in use anywhere else either, unless it is stale. */
  lemma OutOfTheWay(s: State, num: int, cfg: Config)
    requires Inv(s, cfg) && num !in s.tasks
    ensures num !in s.idToKeys && num !in s.pending && (num in s.idToTargets <==> num in Stale(s))
  {
  }

  lemma QueuedMapsAgree(s: State, keys: seq<Key>, targets: seq<Target>, num: int)
    requires MapsAgree(s) && num !in s.idToKeys && AllFree(s, keys)
    ensures MapsAgree(Queued(s, keys, targets, num))
  {
  }

  lemma AllHeldByMaps(t: State)
    requires MapsAgree(t) && QueueAgrees(t) && t.recordOf.Keys == t.idToKeys.Keys
    ensures forall id | id in t.recordOf :: id in t.idToKeys && id in t.idToTargets && id in t.tasks
  {
  }

  lemma QueuedQueueAgrees(s: State, keys: seq<Key>, targets: seq<Target>, num: int)
    requires QueueAgrees(s) && num !in s.tasks
    ensures QueueAgrees(Queued(s, keys, targets, num))
  {
  }

  lemma QueuedLiveAgrees(s: State, keys: seq<Key>, targets: seq<Target>, num: int, cfg: Config, id: int)
    requires Inv(s, cfg) && num !in s.tasks
    requires MapsAgree(Queued(s, keys, targets, num)) && QueueAgrees(Queued(s, keys, targets, num))
    requires id in Queued(s, keys, targets, num).recordOf
    ensures var t := Queued(s, keys, targets, num);
            && id in t.idToKeys && id in t.idToTargets && id in t.tasks && LiveAgrees(t, id)
            && (id == num || t.recordOf[id] < |s.records|)
  {
    EmptyHistory(targets, cfg);
    if id != num { assert LiveAgrees(s, id); }
  }

  lemma QueuedHistoryAgrees(s: State, keys: seq<Key>, targets: seq<Target>, num: int, cfg: Config)
    requires Inv(s, cfg) && num !in s.tasks
    requires MapsAgree(Queued(s, keys, targets, num)) && QueueAgrees(Queued(s, keys, targets, num))
    ensures HistoryAgrees(Queued(s, keys, targets, num), cfg)
  {
    hide LiveAgrees, IsOver, MapsAgree, QueueAgrees, WellBehaved;
    EmptyHistory(targets, cfg);
    OutOfTheWay(s, num, cfg);
    var t := Queued(s, keys, targets, num);
    AllHeldByMaps(t);
    forall id | id in t.recordOf
      ensures LiveAgrees(t, id) && (id == num || t.recordOf[id] < |s.records|)
    {
      QueuedLiveAgrees(s, keys, targets, num, cfg, id);
    }
    forall n | 0 <= n < |t.records|
      ensures IsOver(t.records[n].targets, t.records[n].events) || IsLiveRecord(t, n)
    {
      if n == |s.records| {
        assert t.recordOf[num] == n;
      } else if IsLiveRecord(s, n) {
        var id :| id in s.recordOf && s.recordOf[id] == n;
        assert t.recordOf[id] == n;
      }
    }
  }

  /** Queueing throws exactly for a stale number, and otherwise keeps the invariant. */
  lemma QueueKeepsInv(s: State, keys: seq<Key>, targets: seq<Target>, num: int, cfg: Config)
    requires Inv(s, cfg) && num !in s.tasks
    ensures var o := ApplyQueue(s, keys, targets, num);
            && (o == Desynced <==> AllFree(s, keys) && num in Stale(s))
            && (o != Desynced ==> o.Ok? && Inv(o.next, cfg) && Stale(o.next) == Stale(s))
  {
    hide HistoryAgrees, MapsAgree, QueueAgrees;
    OutOfTheWay(s, num, cfg);
    if AllFree(s, keys) && num !in Stale(s) {
      QueuedMapsAgree(s, keys, targets, num);
      QueuedQueueAgrees(s, keys, targets, num);
      QueuedHistoryAgrees(s, keys, targets, num, cfg);
    }
  }

  lemma ExecuteKeepsInv(s: State, num: int, cfg: Config)
    requires Inv(s, cfg) && num !in s.pending && num in s.tasks
    ensures Inv(s.(tasks := s.tasks[num := s.tasks[num].(active := true)]), cfg)
  {
    var t := s.(tasks := s.tasks[num := s.tasks[num].(active := true)]);
    forall id | id in t.recordOf
      ensures LiveAgrees(t, id)
    {
      assert LiveAgrees(s, id);
    }
    SameRecords(s, t);
  }

  lemma SameRecords(s: State, t: State)
    requires s.recordOf == t.recordOf
    ensures forall n: nat :: IsLiveRecord(s, n) ==> IsLiveRecord(t, n)
  {
  }

  lemma ReapKeepsInv(s: State, id: int, cfg: Config)
    requires Inv(s, cfg) && id in s.pending
    ensures Inv(s.(tasks := s.tasks - {id}, pending := s.pending - {id}), cfg)
  {
    var t := s.(tasks := s.tasks - {id}, pending := s.pending - {id});
    forall i | i in t.recordOf
      ensures LiveAgrees(t, i)
    {
      assert LiveAgrees(s, i);
    }
    SameRecords(s, t);
  }

  /** One event of a live transmission is recorded; the others are untouched. */
  lemma NoteKeepsOthers(s: State, id: int, e: Event, cfg: Config)
    requires Inv(s, cfg) && id in s.recordOf
    requires var r := s.records[s.recordOf[id]]; Allowed(r.targets, r.events, e, cfg)
    ensures |Note(s, id, e)| == |s.records|
    ensures forall n | 0 <= n < |s.records| ::
              Note(s, id, e)[n] == if n == s.recordOf[id] then s.records[n].(events := s.records[n].events + [e])
                                   else s.records[n]
    ensures forall n | 0 <= n < |s.records| :: WellBehaved(Note(s, id, e)[n].targets, Note(s, id, e)[n].events, cfg)
  {
    assert LiveAgrees(s, id);
    var r := s.records[s.recordOf[id]];
    HistoryGrows(r.targets, r.events, e, cfg);
  }

  predicate MayHappen(s: State, id: int, e: Event, cfg: Config) {
    && id in s.recordOf
    && s.recordOf[id] < |s.records|
    && var r := s.records[s.recordOf[id]];
       Allowed(r.targets, r.events, e, cfg)
  }

  /** The other transmissions are as they were. */
  predicate SameOthers(s: State, t: State, id: int) {
    forall i | i in s.recordOf && i != id ::
      && i in t.idToKeys && i in s.idToKeys && t.idToKeys[i] == s.idToKeys[i]
      && i in t.idToTargets && i in s.idToTargets && t.idToTargets[i] == s.idToTargets[i]
      && i in t.tasks && i in s.tasks && t.tasks[i] == s.tasks[i]
  }

  lemma OthersStayLive(s: State, t: State, id: int, e: Event, cfg: Config, i: int)
    requires Inv(s, cfg) && MayHappen(s, id, e, cfg) && SameOthers(s, t, id)
    requires t.records == Note(s, id, e)
    requires i in s.recordOf && i != id && i in t.recordOf && t.recordOf[i] == s.recordOf[i]
    requires i in t.idToKeys && i in t.idToTargets && i in t.tasks
    ensures LiveAgrees(t, i)
  {
    assert LiveAgrees(s, i) && LiveAgrees(s, id);
  }

  /** A live transmission goes on: the others agree as before. */
  lemma GoingOnKeepsHistory(s: State, t: State, id: int, e: Event, cfg: Config)
    requires Inv(s, cfg) && MayHappen(s, id, e, cfg) && SameOthers(s, t, id)
    requires MapsAgree(t) && QueueAgrees(t)
    requires t.recordOf == s.recordOf && t.records == Note(s, id, e) && t.idToKeys.Keys == s.idToKeys.Keys
    requires LiveAgrees(t, id)
    ensures HistoryAgrees(t, cfg)
  {
    NoteKeepsOthers(s, id, e, cfg);
    SameRecords(s, t);
    forall i | i in t.recordOf
      ensures LiveAgrees(t, i)
    {
      if i != id { OthersStayLive(s, t, id, e, cfg, i); }
    }
    forall n | 0 <= n < |t.records|
      ensures IsOver(t.records[n].targets, t.records[n].events) || IsLiveRecord(t, n)
    {
      assert t.recordOf[id] == s.recordOf[id];
    }
  }

  /** A transmission ends, by its last event: the others agree as before. */
  lemma EndingKeepsHistory(s: State, t: State, id: int, e: Event, cfg: Config)
    requires Inv(s, cfg) && MayHappen(s, id, e, cfg) && SameOthers(s, t, id)
    requires MapsAgree(t) && QueueAgrees(t)
    requires t.recordOf == s.recordOf - {id} && t.records == Note(s, id, e)
    requires t.idToKeys.Keys == s.idToKeys.Keys - {id}
    requires IsOver(Continued(s.records[s.recordOf[id]], e).targets, Continued(s.records[s.recordOf[id]], e).events)
    ensures HistoryAgrees(t, cfg)
  {
    NoteKeepsOthers(s, id, e, cfg);
    forall i | i in t.recordOf
      ensures LiveAgrees(t, i)
    {
      OthersStayLive(s, t, id, e, cfg, i);
    }
    forall n | 0 <= n < |t.records|
      ensures IsOver(t.records[n].targets, t.records[n].events) || IsLiveRecord(t, n)
    {
      StaysLiveOrEnds(s, t, id, n);
    }
  }

  lemma StaysLiveOrEnds(s: State, t: State, id: int, n: nat)
    requires id in s.recordOf && t.recordOf == s.recordOf - {id}
    ensures IsLiveRecord(s, n) && n != s.recordOf[id] ==> IsLiveRecord(t, n)
  {
    if IsLiveRecord(s, n) && n != s.recordOf[id] {
      var i :| i in s.recordOf && s.recordOf[i] == n;
      assert i in t.recordOf && t.recordOf[i] == n;
    }
  }

  lemma KeyOfExactly(s: State, id: int, k: Key)
    requires MapsAgree(s) && id in s.idToKeys
    ensures k in Elems(s.idToKeys[id]) <==> k in s.keyToId && s.keyToId[k] == id
  {
  }

  lemma ForgettingKeepsMaps(s: State, id: int)
    requires MapsAgree(s) && id in s.idToKeys
    ensures MapsAgree(Forget(s, id))
    ensures forall k | k in s.keyToId :: k in Forget(s, id).keyToId <==> s.keyToId[k] != id
  {
    var t := Forget(s, id);
    forall k: Key
      ensures k in t.keyToId <==> k in s.keyToId && s.keyToId[k] != id
    {
      KeyOfExactly(s, id, k);
    }
    forall i, k | i in t.idToKeys && k in t.idToKeys[i]
      ensures k in t.keyToId && t.keyToId[k] == i
    {
      KeyOfExactly(s, i, k);
    }
  }

  lemma DroppingKeepsOthers(s: State, t: State, id: int, cfg: Config)
    requires Inv(s, cfg) && id in s.idToKeys
    requires t.keyToId == Forget(s, id).keyToId && t.idToKeys == s.idToKeys - {id}
    requires t.idToTargets == s.idToTargets - {id} && t.tasks == s.tasks - {id} && t.pending == s.pending
    ensures MapsAgree(t) && QueueAgrees(t) && SameOthers(s, t, id)
  {
    ForgettingKeepsMaps(s, id);
  }

  lemma FailingKeepsOthers(s: State, t: State, id: int, cfg: Config)
    requires Inv(s, cfg) && id in s.idToKeys
    requires t.keyToId == Forget(s, id).keyToId && t.idToKeys == s.idToKeys - {id}
    requires t.idToTargets == s.idToTargets - {id} && t.pending == s.pending + {id}
    requires t.tasks.Keys == s.tasks.Keys && !t.tasks[id].active
    requires forall i | i in s.tasks && i != id :: t.tasks[i] == s.tasks[i]
    ensures MapsAgree(t) && QueueAgrees(t) && SameOthers(s, t, id)
  {
    hide HistoryAgrees, LiveAgrees;
    LiveHasRecord(s, id, cfg);
    ForgettingKeepsMaps(s, id);
  }

  lemma LiveHasRecord(s: State, id: int, cfg: Config)
    requires Inv(s, cfg) && id in s.idToKeys
    ensures id in s.recordOf && id in s.idToTargets && id in s.tasks && LiveAgrees(s, id)
    ensures s.recordOf.Keys == s.idToKeys.Keys
    ensures var r := s.records[s.recordOf[id]]; WellBehaved(r.targets, r.events, cfg)
  {
  }

  // A visit

  lemma TransmittingKeepsInv(s: State, id: int, now: int, cfg: Config)
    requires Inv(s, cfg) && id in s.tasks && s.tasks[id].active && IsTaskDue(s.tasks[id], now, cfg)
    requires s.tasks[id].numTries < cfg.numRetries
    ensures ApplyVisit(s, id, now, cfg).Ok? && Inv(ApplyVisit(s, id, now, cfg).next, cfg)
  {
    hide Agrees, Allowed, WellBehaved, IsOver, IsTaskDue, HistoryAgrees;
    LiveHasRecord(s, id, cfg);
    var t := ApplyVisit(s, id, now, cfg).next;
    var e := Sent(now, s.idToTargets[id]);
    SentAgrees(s.records[s.recordOf[id]], s.idToKeys[id], s.idToTargets[id], s.tasks[id], now, cfg);
    assert LiveAgrees(t, id);
    GoingOnKeepsHistory(s, t, id, e, cfg);
  }

  lemma FailingKeepsInv(s: State, id: int, now: int, cfg: Config)
    requires Inv(s, cfg) && id in s.tasks && s.tasks[id].active && IsTaskDue(s.tasks[id], now, cfg)
    requires s.tasks[id].numTries >= cfg.numRetries
    ensures ApplyVisit(s, id, now, cfg).Ok? && Inv(ApplyVisit(s, id, now, cfg).next, cfg)
  {
    hide Agrees, Allowed, WellBehaved, IsOver, IsTaskDue, HistoryAgrees, SameOthers;
    LiveHasRecord(s, id, cfg);
    var t := ApplyVisit(s, id, now, cfg).next;
    FailedAgrees(s.records[s.recordOf[id]], s.idToKeys[id], s.idToTargets[id], s.tasks[id], now, cfg);
    FailingKeepsOthers(s, t, id, cfg);
    EndingKeepsHistory(s, t, id, Failed(now), cfg);
  }

  /** A visit never throws from a reachable state, and keeps the invariant. */
  lemma VisitKeepsInv(s: State, id: int, now: int, cfg: Config)
    requires Inv(s, cfg)
    ensures ApplyVisit(s, id, now, cfg).Ok? && Inv(ApplyVisit(s, id, now, cfg).next, cfg)
  {
    if id in s.tasks && s.tasks[id].active && IsTaskDue(s.tasks[id], now, cfg) {
      if s.tasks[id].numTries >= cfg.numRetries {
        FailingKeepsInv(s, id, now, cfg);
      } else {
        TransmittingKeepsInv(s, id, now, cfg);
      }
    }
  }

  // An acknowledgement

  lemma HearingKeepsInv(s: State, key: Key, from: Target, cfg: Config)
    requires Inv(s, cfg) && key in s.keyToId && Without(s.idToTargets[s.keyToId[key]], {from}) != []
    ensures Inv(ApplyAck(s, key, Some(from)), cfg)
  {
    hide Agrees, Allowed, WellBehaved, IsOver, Without, HistoryAgrees;
    var id := s.keyToId[key];
    LiveHasRecord(s, id, cfg);
    var t := ApplyAck(s, key, Some(from));
    AckedAgrees(s.records[s.recordOf[id]], s.idToKeys[id], s.idToTargets[id], s.tasks[id], from, cfg);
    assert LiveAgrees(t, id);
    GoingOnKeepsHistory(s, t, id, Acked(from), cfg);
  }

  lemma HearingLastKeepsInv(s: State, key: Key, from: Target, cfg: Config)
    requires Inv(s, cfg) && key in s.keyToId && Without(s.idToTargets[s.keyToId[key]], {from}) == []
    ensures Inv(ApplyAck(s, key, Some(from)), cfg)
  {
    hide Agrees, Allowed, WellBehaved, IsOver, Without, HistoryAgrees, SameOthers;
    var id := s.keyToId[key];
    LiveHasRecord(s, id, cfg);
    var t := ApplyAck(s, key, Some(from));
    AckedAgrees(s.records[s.recordOf[id]], s.idToKeys[id], s.idToTargets[id], s.tasks[id], from, cfg);
    DroppingKeepsOthers(s, t, id, cfg);
    EndingKeepsHistory(s, t, id, Acked(from), cfg);
  }

  lemma AckKeepsInv(s: State, key: Key, from: Option<Target>, cfg: Config)
    requires Inv(s, cfg)
    ensures Inv(ApplyAck(s, key, from), cfg)
  {
    if key in s.keyToId && from.Some? {
      if Without(s.idToTargets[s.keyToId[key]], {from.value}) == [] {
        HearingLastKeepsInv(s, key, from.value, cfg);
      } else {
        HearingKeepsInv(s, key, from.value, cfg);
      }
    }
  }

  // Removing everything

  lemma LeftInQueueExactly(s: State, id: int, cfg: Config)
    requires Inv(s, cfg)
    ensures id in AllRemoved(s).tasks <==> id in s.pending || (id in s.idToKeys && s.idToKeys[id] == [])
  {
    hide HistoryAgrees;
    if id in s.idToKeys && s.idToKeys[id] != [] {
      assert s.keyToId[s.idToKeys[id][0]] == id;
    }
  }

  lemma RemovedMapsAgree(s: State, cfg: Config)
    requires Inv(s, cfg)
    ensures MapsAgree(AllRemoved(s)) && Stale(AllRemoved(s)) == Stale(s) + s.idToKeys.Keys
    ensures QueueAgrees(AllRemoved(s)) <==> AllKeyed(s)
  {
    hide HistoryAgrees;
    var t := AllRemoved(s);
    forall id
      ensures id in t.tasks <==> id in s.pending || (id in s.idToKeys && s.idToKeys[id] == [])
    {
      LeftInQueueExactly(s, id, cfg);
    }
    if AllKeyed(s) {
      forall id
        ensures id in t.tasks.Keys <==> id in s.pending
      {
        LeftInQueueExactly(s, id, cfg);
      }
      assert t.tasks.Keys == t.idToKeys.Keys + t.pending;
    } else {
      var id :| id in s.idToKeys && s.idToKeys[id] == [];
      assert id in t.tasks && id !in s.pending;
    }
  }

  lemma RemovedHistoryAgrees(s: State, cfg: Config)
    requires Inv(s, cfg) && MapsAgree(AllRemoved(s)) && QueueAgrees(AllRemoved(s))
    ensures HistoryAgrees(AllRemoved(s), cfg)
  {
    hide Agrees;
    var t := AllRemoved(s);
    forall n | 0 <= n < |t.records|
      ensures WellBehaved(t.records[n].targets, t.records[n].events, cfg)
      ensures IsOver(t.records[n].targets, t.records[n].events)
    {
      if IsLiveRecord(s, n) {
        LiveIsNotOver(s, n, cfg);
        RemovedAgrees(s.records[n], cfg);
      }
    }
  }

  lemma LiveIsNotOver(s: State, n: nat, cfg: Config)
    requires Inv(s, cfg) && IsLiveRecord(s, n)
    ensures n < |s.records| && !IsOver(s.records[n].targets, s.records[n].events)
  {
    var id :| id in s.recordOf && s.recordOf[id] == n;
    assert LiveAgrees(s, id);
  }

  /**
    RemoveAllTransmissions keeps the invariant exactly when no transmission without keys is queued. It makes stale
    all the ids that were live.
  */
  lemma RemoveAllKeepsInvExactly(s: State, cfg: Config)
    requires Inv(s, cfg)
    ensures Inv(AllRemoved(s), cfg) <==> AllKeyed(s)
    ensures Stale(AllRemoved(s)) == Stale(s) + s.idToKeys.Keys
  {
    RemovedMapsAgree(s, cfg);
    if AllKeyed(s) {
      RemovedHistoryAgrees(s, cfg);
    }
  }

  // ---------------------------------------------------------------------------------------------
  // What one step does

  /** RemoveTransmission found the key; this is one turn of its loop that removes the transmission. */
  function RemovedOnce(s: State, key: Key): State
    requires key in s.keyToId
  {
    Forget(s, s.keyToId[key]).(tasks := s.tasks - {s.keyToId[key]})
  }

  /**
    A removal frees the searched key, so that the next turn ends the loop, exactly when the maps agree on it. If
    it does not, every later turn finds the key again and changes nothing more: the loop never ends.
  */
  lemma LoopEndsExactly(s: State, key: Key)
    requires key in s.keyToId
    ensures key !in RemovedOnce(s, key).keyToId
       <==> s.keyToId[key] in s.idToKeys && key in s.idToKeys[s.keyToId[key]]
    ensures var t := RemovedOnce(s, key); key in t.keyToId ==> RemovedOnce(t, key) == t
  {
  }

  /** All keys of the transmission with this id became free, and nothing else is different. */
  predicate FreedTogether(s: State, t: State, id: int) {
    && (forall k | k in s.keyToId :: k in t.keyToId <==> s.keyToId[k] != id)
    && (forall k | k in t.keyToId :: k in s.keyToId && t.keyToId[k] == s.keyToId[k])
    && t.idToKeys == s.idToKeys - {id}
    && t.idToTargets == s.idToTargets - {id}
    && t.tasks == s.tasks - {id}
    && t.pending == s.pending
  }

  /** Only the list of unheard targets of this id is different. */
  predicate HeardOne(s: State, t: State, id: int, from: Target)
    requires id in s.idToTargets
  {
    && t.keyToId == s.keyToId && t.idToKeys == s.idToKeys && t.tasks == s.tasks && t.pending == s.pending
    && t.idToTargets == s.idToTargets[id := Without(s.idToTargets[id], {from})]
  }

  /** An acknowledgement frees all keys of its transmission together, exactly when it is the last one due. */
  lemma AckFreesTogetherExactly(s: State, key: Key, from: Option<Target>, cfg: Config)
    requires Inv(s, cfg)
    ensures var t := ApplyAck(s, key, from);
            if key !in s.keyToId || from.None? then t == s
            else
              var id := s.keyToId[key];
              && id in s.recordOf && s.recordOf[id] < |s.records|
              && var r := s.records[s.recordOf[id]];
              && t.records == s.records[s.recordOf[id] := Continued(r, Acked(from.value))]
              && if AllAcked(r.targets, r.events + [Acked(from.value)]) then FreedTogether(s, t, id)
                 else HeardOne(s, t, id, from.value)
  {
    hide Agrees, Allowed, WellBehaved, Without;
    if key in s.keyToId && from.Some? {
      var id := s.keyToId[key];
      assert id in s.recordOf && LiveAgrees(s, id);
      var r := s.records[s.recordOf[id]];
      AckCompletesExactly(r, s.idToKeys[id], s.idToTargets[id], s.tasks[id], from.value, cfg);
      ForgettingKeepsMaps(s, id);
    }
  }

  lemma AckCompletesExactly(r: Record, keys: seq<Key>, unheard: seq<Target>, t: Task, from: Target, cfg: Config)
    requires WellBehaved(r.targets, r.events, cfg) && Agrees(r, keys, unheard, t)
    ensures AllAcked(r.targets, r.events + [Acked(from)]) <==> Without(unheard, {from}) == []
  {
    AckedAgrees(r, keys, unheard, t, from, cfg);
    HistoryGrows(r.targets, r.events, Acked(from), cfg);
    WithoutOneMore(r.targets, AckedIn(r.events), from);
    assert from in AckedIn(r.events + [Acked(from)]);
  }

  predicate ActsOn(s: State, id: int, now: int, cfg: Config) {
    id in s.tasks && s.tasks[id].active && IsTaskDue(s.tasks[id], now, cfg)
  }

  /** Every transmit and failure action is that of a live transmission, and is recorded in its history. */
  lemma EveryActionIsRecorded(s: State, id: int, now: int, cfg: Config)
    requires Inv(s, cfg) && ActsOn(s, id, now, cfg)
    ensures ApplyVisit(s, id, now, cfg).Ok? && id in s.recordOf && id in s.idToTargets
    ensures var n, t := s.recordOf[id], ApplyVisit(s, id, now, cfg).next;
            var e := if s.tasks[id].numTries >= cfg.numRetries then Failed(now) else Sent(now, s.idToTargets[id]);
            n < |s.records| && t.records == s.records[n := Continued(s.records[n], e)]
  {
    VisitKeepsInv(s, id, now, cfg);
    assert LiveAgrees(s, id);
  }

  /** A call of Execute on an id makes a due visit of that task throw exactly when the id has failed before. */
  lemma VisitAfterExecuteThrowsExactly(s: State, id: int, now: int, cfg: Config)
    requires Inv(s, cfg) && id in s.tasks && IsTaskDue(s.tasks[id], now, cfg)
    ensures Apply(s, Execute(id), cfg).Ok?
    ensures ApplyVisit(Apply(s, Execute(id), cfg).next, id, now, cfg).OutOfRange? <==> id in s.pending
  {
    if id !in s.pending {
      ExecuteKeepsInv(s, id, cfg);
      VisitKeepsInv(Apply(s, Execute(id), cfg).next, id, now, cfg);
    }
  }
}
