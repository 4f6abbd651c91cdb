/**
  The frame-id allocator of DigiMeshRadio as a protocol over runs of reserve and finish: a circular search
  that starts behind the last id handed out. The class in DigiMeshRadio.dfy refines Reserve.
*/
module FrameIds {

  const QUEUE_SIZE := 256

  /** The frame ids marked in use and the last id handed out (0 before the first). */
  datatype Pool = Pool(inUse: set<int>, previous: int)

  const EMPTY := Pool({}, 0)

  predicate ValidId(id: int) { 1 <= id < QUEUE_SIZE }

  predicate Valid(p: Pool) {
    && (forall id :: id in p.inUse ==> ValidId(id))
    && 0 <= p.previous < QUEUE_SIZE
    && (p.previous == 0 ==> p.inUse == {})
  }

  /** The k-th id after `previous`, going round 1..255. */
  function Candidate(previous: int, k: nat): int { (previous - 1 + k) % (QUEUE_SIZE - 1) + 1 }

  predicate AllOthersInUse(p: Pool) {
    forall id | 1 <= id < QUEUE_SIZE :: id != p.previous ==> id in p.inUse
  }

  /** `r` is the first free id cyclically after the last one handed out. */
  ghost predicate IsFirstFree(p: Pool, r: int) {
    exists k: nat ::
      && 1 <= k <= 254 && r == Candidate(p.previous, k) && r !in p.inUse
      && forall j: nat | 1 <= j < k :: Candidate(p.previous, j) in p.inUse
  }

  /** The answer of a reservation: -1 when the search comes round to the last id, else the id it stops at. */
  ghost predicate IsAnswer(p: Pool, r: int) {
    if AllOthersInUse(p) then r == -1 else IsFirstFree(p, r)
  }

  function AfterReserve(p: Pool, r: int): Pool {
    if r == -1 then p else Pool(p.inUse + {r}, r)
  }

  function AfterFinish(p: Pool, id: int): Pool { p.(inUse := p.inUse - {id}) }

  /** Once an id was handed out, the 254 candidates are exactly the valid ids other than it. */
  lemma CandidatesCover(previous: int, id: int)
    requires ValidId(previous) && ValidId(id) && id != previous
    ensures exists k: nat :: 1 <= k <= 254 && Candidate(previous, k) == id
  {
    var k := if id > previous then id - previous else id - previous + 255;
    assert Candidate(previous, k) == id;
  }

  lemma CandidateIsOther(previous: int, k: nat)
    requires 0 <= previous < QUEUE_SIZE && 1 <= k <= 254
    ensures ValidId(Candidate(previous, k)) && Candidate(previous, k) != previous
  {
  }

  /** Stepping and wrapping to 1, as the search loop does. */
  lemma NextCandidate(previous: int, k: nat)
    requires 0 <= previous < QUEUE_SIZE && k <= 254 && (previous == 0 ==> k == 0)
    ensures var next := 1 + if k == 0 then previous else Candidate(previous, k);
            Candidate(previous, k + 1) == if next > QUEUE_SIZE - 1 then 1 else next
    ensures previous == Candidate(previous, k + 1) ==> k == 254
    ensures k == 254 ==> previous == Candidate(previous, k + 1)
  {
  }

  lemma AllCandidatesInUse(p: Pool)
    requires ValidId(p.previous)
    requires forall k: nat | 1 <= k <= 254 :: Candidate(p.previous, k) in p.inUse
    ensures AllOthersInUse(p)
  {
    forall id | 1 <= id < QUEUE_SIZE && id != p.previous
      ensures id in p.inUse
    {
      CandidatesCover(p.previous, id);
    }
  }

  /** The search is deterministic: one pool has one answer. */
  lemma AnswerIsUnique(p: Pool, r: int, s: int)
    requires Valid(p) && IsAnswer(p, r) && IsAnswer(p, s)
    ensures r == s
  {
  }

  /** -1 exactly when every id other than the last one handed out is in use. */
  lemma RefusedExactlyWhenOthersInUse(p: Pool, r: int)
    requires Valid(p) && IsAnswer(p, r)
    ensures r == -1 <==> AllOthersInUse(p)
    ensures r != -1 ==> ValidId(r) && r !in p.inUse && r != p.previous
  {
    if !AllOthersInUse(p) {
      var k: nat :| 1 <= k <= 254 && r == Candidate(p.previous, k) && r !in p.inUse
        && forall j: nat | 1 <= j < k :: Candidate(p.previous, j) in p.inUse;
      CandidateIsOther(p.previous, k);
    }
  }

  /** The search never tries the last id again: it refuses with a free id left exactly when that is the one. */
  lemma RefusesWithAFreeIdExactly(p: Pool, r: int)
    requires Valid(p) && IsAnswer(p, r)
    ensures (r == -1 && exists id | 1 <= id < QUEUE_SIZE :: id !in p.inUse)
       <==> (AllOthersInUse(p) && p.previous !in p.inUse)
  {
    RefusedExactlyWhenOthersInUse(p, r);
    if AllOthersInUse(p) {
      assert 1 in p.inUse || p.previous == 1;
    }
  }

  /** Whether an id lies after `previous` and before r, going up and round from 255 to 1. */
  predicate IsBetween(previous: int, id: int, r: int) {
    if previous < r then previous < id < r else previous < id <= 255 || 1 <= id < r
  }

  /** The search goes up, round from 255 to 1, and takes the first free id: all those in between are in use. */
  lemma AllBetweenAreInUse(p: Pool, r: int, id: int)
    requires Valid(p) && IsAnswer(p, r) && r != -1
    requires 1 <= id <= 255 && id != p.previous && IsBetween(p.previous, id, r)
    ensures id in p.inUse
  {
    var k: nat :| 1 <= k <= 254 && r == Candidate(p.previous, k) && r !in p.inUse
      && forall j: nat | 1 <= j < k :: Candidate(p.previous, j) in p.inUse;
    var j := if id > p.previous then id - p.previous else id - p.previous + 255;
    assert Candidate(p.previous, j) == id;
  }

  /** The very first id is 1. */
  lemma FirstIdIsOne(r: int)
    requires IsAnswer(EMPTY, r)
    ensures r == 1
  {
    assert 1 !in EMPTY.inUse;
    RefusedExactlyWhenOthersInUse(EMPTY, r);
    if r > 1 { AllBetweenAreInUse(EMPTY, r, 1); }
  }

  // ---------------------------------------------------------------------------------------------
  // Runs

  datatype Event = Reserved(answer: int) | Finished(id: int)

  /** The pool reached by a run of answered reservations and finishes, most recent event last. */
  function PoolAfter(run: seq<Event>): Pool {
    if run == [] then EMPTY
    else
      var p := PoolAfter(run[..|run| - 1]);
      match run[|run| - 1]
      case Reserved(r) => AfterReserve(p, r)
      case Finished(id) => AfterFinish(p, id)
  }

  /** Every reservation was answered by the search in the pool of that moment. */
  ghost predicate IsRun(run: seq<Event>) {
    forall i | 0 <= i < |run| && run[i].Reserved? :: IsAnswer(PoolAfter(run[..i]), run[i].answer)
  }

  /** The ids handed out and not finished since, read off the history alone. */
  function Outstanding(run: seq<Event>): multiset<int> {
    if run == [] then multiset{}
    else
      var m := Outstanding(run[..|run| - 1]);
      match run[|run| - 1]
      case Reserved(r) => if r == -1 then m else m + multiset{r}
      case Finished(id) => m[id := 0]
  }

  /** In every run the outstanding ids are pairwise distinct, lie in 1..255, and are exactly those marked. */
  lemma {:induction false} OutstandingIdsAreDistinct(run: seq<Event>)
    requires IsRun(run)
    ensures Valid(PoolAfter(run))
    ensures Outstanding(run) == multiset(PoolAfter(run).inUse)
    ensures forall id :: id in Outstanding(run) ==> Outstanding(run)[id] == 1 && ValidId(id)
    decreases |run|
  {
    if run != [] {
      var before, last := run[..|run| - 1], run[|run| - 1];
      forall i | 0 <= i < |before| && before[i].Reserved?
        ensures IsAnswer(PoolAfter(before[..i]), before[i].answer)
      {
        assert before[..i] == run[..i];
      }
      OutstandingIdsAreDistinct(before);
      if last.Reserved? {
        RefusedExactlyWhenOthersInUse(PoolAfter(before), last.answer);
      }
    }
  }

  /** An id handed out is never one that is still outstanding. */
  lemma ReservedIdIsNotOutstanding(run: seq<Event>, answer: int)
    requires IsRun(run + [Reserved(answer)])
    ensures answer == -1 || (ValidId(answer) && answer !in Outstanding(run))
  {
    var longer := run + [Reserved(answer)];
    forall i | 0 <= i < |run| && run[i].Reserved?
      ensures IsAnswer(PoolAfter(run[..i]), run[i].answer)
    {
      assert longer[..i] == run[..i] && longer[i] == run[i];
    }
    OutstandingIdsAreDistinct(run);
    assert longer[..|run|] == run && longer[|run|] == Reserved(answer);
    RefusedExactlyWhenOthersInUse(PoolAfter(run), answer);
  }

  predicate HandsOut(e: Event) { e.Reserved? && e.answer != -1 }

  /** The search starts behind the id handed out last in the run, which finishing does not change. */
  lemma {:induction false} PreviousIsLastHandedOut(run: seq<Event>, i: nat)
    requires i < |run| && HandsOut(run[i])
    requires forall j | i < j < |run| :: !HandsOut(run[j])
    ensures PoolAfter(run).previous == run[i].answer
    decreases |run|
  {
    var n := |run| - 1;
    if i < n {
      assert forall j | i < j < n :: run[..n][j] == run[j];
      PreviousIsLastHandedOut(run[..n], i);
      assert !HandsOut(run[n]);
    }
  }

  lemma {:induction false} NothingHandedOut(run: seq<Event>)
    requires forall j | 0 <= j < |run| :: !HandsOut(run[j])
    ensures PoolAfter(run).previous == 0
    decreases |run|
  {
    if run != [] {
      var n := |run| - 1;
      assert forall j | 0 <= j < n :: run[..n][j] == run[j];
      NothingHandedOut(run[..n]);
      assert !HandsOut(run[n]);
    }
  }
}
