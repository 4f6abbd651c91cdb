/**
  install/_local_setup_util_sh.py: topological ordering of packages with an alphabetical choice, and the
  reduction of a package map to its circular part.
*/
module PackageOrder {
  import opened PackageNames

  type Packages = map<string, set<string>>

  function Elements(s: seq<string>): set<string> { set x | x in s }

  ghost predicate Distinct(s: seq<string>) { forall i, j | 0 <= i < j < |s| :: s[i] != s[j] }

  // ---------------------------------------------------------------------------------------------
  // What an order is, and which one is asked for

  /** Every package once, after all its dependencies. */
  ghost predicate IsOrder(deps: Packages, order: seq<string>) {
    && Distinct(order)
    && Elements(order) == deps.Keys
    && DependenciesComeFirst(deps, order)
  }

  ghost predicate DependenciesComeFirst(deps: Packages, order: seq<string>) {
    forall i | 0 <= i < |order| :: order[i] in deps && deps[order[i]] <= Elements(order[..i])
  }

  /** At the first place where two lists differ, the left one has the alphabetically earlier name. */
  ghost predicate ListBefore(a: seq<string>, b: seq<string>) {
    exists i | 0 <= i < |a| && i < |b| :: a[..i] == b[..i] && Before(a[i], b[i])
  }

  ghost predicate IsLeastOrder(deps: Packages, order: seq<string>) {
    && IsOrder(deps, order)
    && forall o | IsOrder(deps, o) :: o == order || ListBefore(order, o)
  }

  ghost predicate Closed(deps: Packages) { forall k | k in deps :: deps[k] <= deps.Keys }

  /** The position after i on a ring of n. */
  function Next(i: nat, n: nat): nat { if i + 1 == n then 0 else i + 1 }

  /** A cycle: each name depends on the next one, and the last on the first. */
  ghost predicate IsCycle(deps: Packages, c: seq<string>) {
    && c != []
    && (forall i | 0 <= i < |c| :: c[i] in deps)
    && forall i, j | 0 <= i < |c| && 0 <= j < |c| && j == Next(i, |c|) :: c[j] in deps[c[i]]
  }

  ghost predicate HasOrder(deps: Packages) { exists o :: IsOrder(deps, o) }

  ghost predicate HasCycle(deps: Packages) { exists c :: IsCycle(deps, c) }

  /** A set in which every package depends on some member. */
  ghost predicate IsDependingSet(deps: Packages, s: set<string>) {
    s <= deps.Keys && forall x | x in s :: deps[x] * s != {}
  }

  function Dependents(deps: Packages, name: string): set<string> { set y | y in deps && name in deps[y] }

  /** A set in which every package is depended on by some member. */
  ghost predicate IsDependedSet(deps: Packages, s: set<string>) {
    s <= deps.Keys && forall x | x in s :: Dependents(deps, x) * s != {}
  }

  /** A set in which every package depends on some member or on a name that is not a package. */
  ghost predicate IsBlockedSet(deps: Packages, s: set<string>) {
    s <= deps.Keys && forall x | x in s :: !(deps[x] <= deps.Keys - s)
  }

  /** The packages that can never be ordered: the greatest blocked set. */
  ghost predicate IsStuckSet(deps: Packages, stuck: set<string>) {
    IsBlockedSet(deps, stuck) && forall s | IsBlockedSet(deps, s) :: s <= stuck
  }

  /** What the error names: within the stuck packages, the greatest set each of whose members is depended on. */
  ghost predicate IsCircularPart(deps: Packages, stuck: set<string>, names: set<string>) {
    && names <= stuck && IsDependedSet(deps, names)
    && forall s | s <= stuck && IsDependedSet(deps, s) :: s <= names
  }

  // ---------------------------------------------------------------------------------------------
  // Cycles and orders exclude each other

  lemma {:induction false} CycleAvoidsPrefix(deps: Packages, order: seq<string>, c: seq<string>, k: nat)
    requires DependenciesComeFirst(deps, order) && IsCycle(deps, c) && k <= |order|
    ensures forall i | 0 <= i < |c| :: c[i] !in order[..k]
  {
    if k > 0 {
      CycleAvoidsPrefix(deps, order, c, k - 1);
      assert order[..k] == order[..k - 1] + [order[k - 1]];
      forall i | 0 <= i < |c|
        ensures c[i] != order[k - 1]
      {
        assert c[Next(i, |c|)] in deps[c[i]];
      }
    }
  }

  lemma CycleExcludesOrder(deps: Packages, order: seq<string>, c: seq<string>)
    requires IsCycle(deps, c)
    ensures !IsOrder(deps, order)
  {
    if IsOrder(deps, order) {
      assert order[..|order|] == order;
      assert c[0] in Elements(order);
      CycleAvoidsPrefix(deps, order, c, |order|);
    }
  }

  lemma OrderHasNoCycle(deps: Packages, order: seq<string>)
    requires IsOrder(deps, order)
    ensures !HasCycle(deps)
  {
    forall c | IsCycle(deps, c)
      ensures false
    {
      CycleExcludesOrder(deps, order, c);
    }
  }

  lemma {:induction false} Pigeonhole(walk: seq<string>, s: set<string>) returns (i: nat, j: nat)
    requires |walk| > |s| && forall x | x in walk :: x in s
    ensures i < j < |walk| && walk[i] == walk[j]
    decreases |walk|
  {
    var last := walk[|walk| - 1];
    var front := walk[..|walk| - 1];
    if last in front {
      i :| 0 <= i < |front| && front[i] == last;
      j := |walk| - 1;
    } else {
      forall x | x in front
        ensures x in s - {last}
      {
        assert x in walk;
      }
      i, j := Pigeonhole(front, s - {last});
    }
  }

  ghost predicate IsWalk(deps: Packages, s: set<string>, walk: seq<string>) {
    && (forall x | x in walk :: x in s && x in deps)
    && forall i, j | 0 <= i < j < |walk| && j == i + 1 :: walk[j] in deps[walk[i]]
  }

  lemma {:induction false} WalkOfLength(deps: Packages, s: set<string>, n: nat) returns (walk: seq<string>)
    requires s != {} && IsDependingSet(deps, s)
    ensures |walk| == n + 1 && IsWalk(deps, s, walk)
  {
    if n == 0 {
      var x :| x in s;
      walk := [x];
    } else {
      var w := WalkOfLength(deps, s, n - 1);
      var x := w[n - 1];
      assert x in w;
      var y :| y in deps[x] * s;
      walk := w + [y];
    }
  }

  /** A walk longer than the set it stays in goes round a cycle. */
  lemma LongWalkHasCycle(deps: Packages, s: set<string>, walk: seq<string>) returns (c: seq<string>)
    requires IsWalk(deps, s, walk) && |walk| > |s|
    ensures IsCycle(deps, c) && Elements(c) <= s
  {
    var i, j := Pigeonhole(walk, s);
    c := walk[i..j];
    forall k | 0 <= k < |c|
      ensures c[k] in deps && c[Next(k, |c|)] in deps[c[k]]
    {
      assert c[k] == walk[i + k] && walk[i + k] in walk;
      assert c[Next(k, |c|)] == walk[i + k + 1];
    }
    forall x | x in c
      ensures x in s
    {
      assert x in walk;
    }
  }

  /** Following dependencies inside a finite set must come round. */
  lemma DependingSetHasCycle(deps: Packages, s: set<string>) returns (c: seq<string>)
    requires s != {} && IsDependingSet(deps, s)
    ensures IsCycle(deps, c) && Elements(c) <= s
  {
    var walk := WalkOfLength(deps, s, |s|);
    c := LongWalkHasCycle(deps, s, walk);
  }

  lemma {:induction false} BackWalkOfLength(deps: Packages, s: set<string>, n: nat) returns (walk: seq<string>)
    requires s != {} && IsDependedSet(deps, s)
    ensures |walk| == n + 1 && IsWalk(deps, s, walk)
  {
    if n == 0 {
      var x :| x in s;
      walk := [x];
    } else {
      var w := BackWalkOfLength(deps, s, n - 1);
      assert w[0] in w;
      var y :| y in Dependents(deps, w[0]) * s;
      walk := [y] + w;
    }
  }

  /** So must following dependents. */
  lemma DependedSetHasCycle(deps: Packages, s: set<string>) returns (c: seq<string>)
    requires s != {} && IsDependedSet(deps, s)
    ensures IsCycle(deps, c) && Elements(c) <= s
  {
    var walk := BackWalkOfLength(deps, s, |s|);
    c := LongWalkHasCycle(deps, s, walk);
  }

  /** The members of a cycle are each depended on by the one before. */
  lemma CycleIsDependedSet(deps: Packages, c: seq<string>)
    requires IsCycle(deps, c)
    ensures IsDependedSet(deps, Elements(c)) && IsDependingSet(deps, Elements(c)) && c[0] in Elements(c)
  {
    forall x | x in Elements(c)
      ensures x in deps && Dependents(deps, x) * Elements(c) != {} && deps[x] * Elements(c) != {}
    {
      var i :| 0 <= i < |c| && c[i] == x;
      var before := if i == 0 then |c| - 1 else i - 1;
      assert i == Next(before, |c|);
      assert c[before] in Dependents(deps, x) * Elements(c);
      assert c[Next(i, |c|)] in deps[x] * Elements(c);
    }
  }

  // ---------------------------------------------------------------------------------------------
  // The greedy choice

  /** A prefix chosen greedily: no order of the packages comes alphabetically before it. */
  ghost predicate IsGreedyPrefix(deps: Packages, ordered: seq<string>) {
    && Distinct(ordered)
    && DependenciesComeFirst(deps, ordered)
    && forall o | IsOrder(deps, o) :: ordered <= o || ListBefore(ordered, o)
  }

  predicate IsReady(deps: Packages, done: set<string>, name: string) {
    name in deps && name !in done && deps[name] <= done
  }

  lemma GreedyStep(deps: Packages, ordered: seq<string>, name: string)
    requires IsGreedyPrefix(deps, ordered)
    requires IsReady(deps, Elements(ordered), name)
    requires forall n | IsReady(deps, Elements(ordered), n) :: n == name || Before(name, n)
    ensures IsGreedyPrefix(deps, ordered + [name])
  {
    ReadyCanFollow(deps, ordered, name);
    forall o | IsOrder(deps, o)
      ensures ordered + [name] <= o || ListBefore(ordered + [name], o)
    {
      if ordered <= o {
        GreedyAgainst(deps, ordered, name, o);
      } else {
        StaysBefore(ordered, name, o);
      }
    }
  }

  lemma StaysBefore(ordered: seq<string>, name: string, o: seq<string>)
    requires ListBefore(ordered, o)
    ensures ListBefore(ordered + [name], o)
  {
    var i :| 0 <= i < |ordered| && i < |o| && ordered[..i] == o[..i] && Before(ordered[i], o[i]);
    assert (ordered + [name])[..i] == o[..i];
  }

  lemma ReadyCanFollow(deps: Packages, ordered: seq<string>, name: string)
    requires Distinct(ordered) && DependenciesComeFirst(deps, ordered)
    requires IsReady(deps, Elements(ordered), name)
    ensures Distinct(ordered + [name]) && DependenciesComeFirst(deps, ordered + [name])
  {
    var longer := ordered + [name];
    assert name !in ordered;
    forall i | 0 <= i < |longer|
      ensures longer[i] in deps && deps[longer[i]] <= Elements(longer[..i])
    {
      assert longer[..i] == ordered[..i];
      assert ordered[..|ordered|] == ordered;
    }
  }

  /** Any order with the same prefix goes on with a ready name, so not with an earlier one. */
  lemma GreedyAgainst(deps: Packages, ordered: seq<string>, name: string, o: seq<string>)
    requires IsOrder(deps, o) && ordered <= o
    requires IsReady(deps, Elements(ordered), name)
    requires forall n | IsReady(deps, Elements(ordered), n) :: n == name || Before(name, n)
    ensures ordered + [name] <= o || ListBefore(ordered + [name], o)
  {
    var k := |ordered|;
    assert name !in ordered;
    PrefixLeavesSomething(deps, ordered, o, name);
    assert o[..k] == ordered;
    assert IsReady(deps, Elements(ordered), o[k]);
    if o[k] == name {
      assert ordered + [name] == o[..k + 1];
    } else {
      assert (ordered + [name])[..k] == o[..k];
    }
  }

  lemma PrefixLeavesSomething(deps: Packages, ordered: seq<string>, o: seq<string>, name: string)
    requires IsOrder(deps, o) && ordered <= o && name in deps && name !in ordered
    ensures |o| > |ordered| && o[|ordered|] !in ordered
  {
    assert name in Elements(o);
    assert |o| == |ordered| ==> o == ordered;
  }

  /** The greedy order is the least one. */
  lemma GreedyOrderIsLeast(deps: Packages, ordered: seq<string>)
    requires IsGreedyPrefix(deps, ordered) && Elements(ordered) == deps.Keys
    ensures IsLeastOrder(deps, ordered)
  {
    forall o | IsOrder(deps, o) && ordered <= o
      ensures o == ordered
    {
      assert forall i | 0 <= i < |o| :: o[i] in Elements(o);
      NextIsNew(ordered, o);
    }
  }

  lemma NextIsNew(ordered: seq<string>, o: seq<string>)
    requires Distinct(o) && ordered <= o
    ensures |o| > |ordered| ==> o[|ordered|] !in ordered
  {
  }

  /** There is at most one least order. */
  lemma LeastOrderIsUnique(deps: Packages, a: seq<string>, b: seq<string>)
    requires IsLeastOrder(deps, a) && IsLeastOrder(deps, b)
    ensures a == b
  {
    if ListBefore(a, b) { ListBeforeIsAsymmetric(a, b); }
  }

  lemma ListBeforeIsAsymmetric(a: seq<string>, b: seq<string>)
    requires ListBefore(a, b)
    ensures !ListBefore(b, a) && a != b
  {
    var i :| 0 <= i < |a| && i < |b| && a[..i] == b[..i] && Before(a[i], b[i]);
    BeforeIsStrict(a[i], b[i]);
    forall j | 0 <= j < |b| && j < |a| && b[..j] == a[..j]
      ensures !Before(b[j], a[j])
    {
      if i < j {
        PrefixesDiffer(a, b, i, j);
      } else if j < i {
        assert a[..i][j] == b[..i][j];
        BeforeIsStrict(b[j], a[j]);
      }
    }
  }

  lemma PrefixesDiffer(a: seq<string>, b: seq<string>, i: nat, j: nat)
    requires i < j <= |a| && j <= |b| && a[i] != b[i]
    ensures a[..j] != b[..j]
  {
    assert a[..j][i] == a[i] && b[..j][i] == b[i];
  }

  // ---------------------------------------------------------------------------------------------
  // When nothing is ready

  /** The dependencies still to be ordered, as the packages dictionary holds them during the loop. */
  function Remaining(deps: Packages, done: set<string>): Packages { map k | k in deps :: deps[k] - done }

  ghost predicate NothingReady(deps: Packages, done: set<string>) {
    forall n :: !IsReady(deps, done, n)
  }

  lemma {:induction false} OrderStaysInside(deps: Packages, done: set<string>, o: seq<string>, k: nat)
    requires IsOrder(deps, o) && NothingReady(deps, done) && k <= |o|
    ensures Elements(o[..k]) <= done
  {
    if k > 0 {
      OrderStaysInside(deps, done, o, k - 1);
      assert !IsReady(deps, done, o[k - 1]);
      assert o[..k] == o[..k - 1] + [o[k - 1]];
    }
  }

  lemma StuckMeansNoOrder(deps: Packages, done: set<string>, o: seq<string>)
    requires NothingReady(deps, done) && !(deps.Keys <= done)
    ensures !IsOrder(deps, o)
  {
    if IsOrder(deps, o) {
      assert o[..|o|] == o;
      OrderStaysInside(deps, done, o, |o|);
    }
  }

  lemma {:induction false} BlockedSetAvoidsPrefix(deps: Packages, ordered: seq<string>, s: set<string>, k: nat)
    requires DependenciesComeFirst(deps, ordered) && IsBlockedSet(deps, s) && k <= |ordered|
    ensures Elements(ordered[..k]) <= deps.Keys - s
  {
    if k > 0 {
      BlockedSetAvoidsPrefix(deps, ordered, s, k - 1);
      assert ordered[..k] == ordered[..k - 1] + [ordered[k - 1]];
      assert deps[ordered[k - 1]] <= deps.Keys - s;
    }
  }

  /** What is left when nothing is ready is exactly what can never be ordered. */
  lemma RestIsStuckSet(deps: Packages, ordered: seq<string>)
    requires DependenciesComeFirst(deps, ordered) && NothingReady(deps, Elements(ordered))
    ensures IsStuckSet(deps, deps.Keys - Elements(ordered))
  {
    var done := Elements(ordered);
    var rest := deps.Keys - done;
    forall x | x in rest
      ensures !(deps[x] <= deps.Keys - rest)
    {
      assert !IsReady(deps, done, x);
    }
    forall s | IsBlockedSet(deps, s)
      ensures s <= rest
    {
      BlockedSetAvoidsPrefix(deps, ordered, s, |ordered|);
      assert ordered[..|ordered|] == ordered;
    }
  }

  /** Without unknown names, to be blocked is to depend on a member. */
  lemma BlockedIsDepending(deps: Packages, s: set<string>)
    requires Closed(deps) && IsBlockedSet(deps, s)
    ensures IsDependingSet(deps, s)
  {
    forall x | x in s
      ensures deps[x] * s != {}
    {
      var y :| y in deps[x] && y !in deps.Keys - s;
      assert y in deps[x] * s;
    }
  }

  /** Being depended on, among the remaining dependencies, is being depended on within the stuck packages. */
  lemma RemainingDependedSet(deps: Packages, ordered: seq<string>, s: set<string>)
    requires DependenciesComeFirst(deps, ordered)
    ensures IsDependedSet(Remaining(deps, Elements(ordered)), s)
       <==> s <= deps.Keys - Elements(ordered) && IsDependedSet(deps, s)
  {
    var done := Elements(ordered);
    var remaining := Remaining(deps, done);
    forall x: string | x in s && s <= deps.Keys
      ensures x !in done ==> Dependents(remaining, x) * s == Dependents(deps, x) * s
      ensures x in done ==> Dependents(remaining, x) == {}
    {
    }
  }

  lemma CircularPartOfRemaining(deps: Packages, ordered: seq<string>, names: set<string>)
    requires DependenciesComeFirst(deps, ordered)
    requires IsGreatestDependedSet(Remaining(deps, Elements(ordered)), names)
    ensures IsCircularPart(deps, deps.Keys - Elements(ordered), names)
  {
    RemainingDependedSet(deps, ordered, names);
    forall s | s <= deps.Keys - Elements(ordered) && IsDependedSet(deps, s)
      ensures s <= names
    {
      RemainingDependedSet(deps, ordered, s);
    }
  }

  /** The circular part of the stuck packages is not empty exactly when there is a cycle anywhere. */
  lemma CircularPartHasCycleExactly(deps: Packages, stuck: set<string>, names: set<string>)
    requires IsStuckSet(deps, stuck) && IsCircularPart(deps, stuck, names)
    ensures names != {} <==> HasCycle(deps)
  {
    if names != {} {
      var c := DependedSetHasCycle(deps, names);
    }
    forall c | IsCycle(deps, c)
      ensures names != {}
    {
      CycleIsDependedSet(deps, c);
      DependingIsBlocked(deps, Elements(c));
    }
  }

  lemma DependingIsBlocked(deps: Packages, s: set<string>)
    requires IsDependingSet(deps, s)
    ensures IsBlockedSet(deps, s)
  {
    forall x | x in s
      ensures !(deps[x] <= deps.Keys - s)
    {
      var y :| y in deps[x] * s;
    }
  }

  /** Ordering one ready package after another comes to an end only with an order, a cycle or an unknown name. */
  lemma {:induction false} OrderExists(deps: Packages, ordered: seq<string>) returns (order: seq<string>)
    requires Closed(deps) && !HasCycle(deps)
    requires Distinct(ordered) && DependenciesComeFirst(deps, ordered) && Elements(ordered) <= deps.Keys
    ensures IsOrder(deps, order)
    decreases |deps.Keys - Elements(ordered)|
  {
    var rest := deps.Keys - Elements(ordered);
    if rest == {} {
      order := ordered;
    } else if NothingReady(deps, Elements(ordered)) {
      RestIsStuckSet(deps, ordered);
      BlockedIsDepending(deps, rest);
      var c := DependingSetHasCycle(deps, rest);
      order := [];
    } else {
      var n :| IsReady(deps, Elements(ordered), n);
      ReadyCanFollow(deps, ordered, n);
      OneMoreElement(deps.Keys, ordered, n);
      order := OrderExists(deps, ordered + [n]);
    }
  }

  lemma OneMoreElement(keys: set<string>, s: seq<string>, n: string)
    requires n in keys && n !in Elements(s)
    ensures Elements(s + [n]) == Elements(s) + {n}
    ensures |keys - Elements(s + [n])| < |keys - Elements(s)|
  {
    assert Elements(s + [n]) == Elements(s) + {n};
    assert keys - Elements(s + [n]) == keys - Elements(s) - {n};
  }

  /** There is an order exactly when there is no cycle and no dependency on an unknown name. */
  lemma HasOrderExactly(deps: Packages)
    ensures HasOrder(deps) <==> Closed(deps) && !HasCycle(deps)
  {
    forall o | IsOrder(deps, o)
      ensures Closed(deps) && !HasCycle(deps)
    {
      OrderHasNoCycle(deps, o);
      OrderIsClosed(deps, o);
    }
    if Closed(deps) && !HasCycle(deps) {
      var o := OrderExists(deps, []);
    }
  }

  lemma OrderIsClosed(deps: Packages, o: seq<string>)
    requires IsOrder(deps, o)
    ensures Closed(deps)
  {
    forall k | k in deps
      ensures deps[k] <= deps.Keys
    {
      assert k in Elements(o);
      var i :| 0 <= i < |o| && o[i] == k;
      assert Elements(o[..i]) <= Elements(o);
    }
  }

  // ---------------------------------------------------------------------------------------------
  // The dictionary and the functions that change it

  ghost predicate IsGreatestDependedSet(deps: Packages, s: set<string>) {
    IsDependedSet(deps, s) && forall t | IsDependedSet(deps, t) :: t <= s
  }

  /** All dependencies of all packages. */
  function Depended(deps: Packages): set<string> { set k, d | k in deps && d in deps[k] :: d }

  function Restrict(deps: Packages, names: set<string>): Packages { map k | k in deps && k in names :: deps[k] }

  function Without(s: seq<string>, x: string): seq<string>
    requires x in s
  {
    if s[0] == x then s[1..] else [s[0]] + Without(s[1..], x)
  }

  /** Removing a name from a list without repetitions. */
  lemma {:induction false} WithoutElements(s: seq<string>, x: string)
    requires Distinct(s) && x in s
    ensures Distinct(Without(s, x)) && Elements(Without(s, x)) == Elements(s) - {x}
    ensures |Without(s, x)| == |s| - 1
  {
    if s[0] != x {
      WithoutElements(s[1..], x);
      var w, h := Without(s[1..], x), s[0];
      assert s == [h] + s[1..];
      assert h !in Elements(s[1..]) && h !in Elements(w);
      assert forall k | 0 <= k < |w| :: w[k] in Elements(w);
      assert Elements([h] + w) == {h} + Elements(w);
    } else {
      assert s == [x] + s[1..];
    }
  }

  /** What the main loop keeps: names still to be ordered, names ordered, and the shrunken dictionary. */
  ghost predicate IsProgress(deps: Packages, toBeOrdered: seq<string>, ordered: seq<string>, packages: Packages) {
    && Distinct(toBeOrdered)
    && Elements(toBeOrdered) == deps.Keys - Elements(ordered)
    && Elements(ordered) <= deps.Keys
    && packages == Remaining(deps, Elements(ordered))
  }

  lemma ProgressStep(deps: Packages, toBeOrdered: seq<string>, ordered: seq<string>, packages: Packages,
                     name: string, after: Packages)
    requires IsProgress(deps, toBeOrdered, ordered, packages) && name in toBeOrdered
    requires after.Keys == packages.Keys && forall k | k in after :: after[k] == packages[k] - {name}
    ensures IsProgress(deps, Without(toBeOrdered, name), ordered + [name], after)
    ensures |Without(toBeOrdered, name)| < |toBeOrdered|
  {
    WithoutElements(toBeOrdered, name);
    assert name in Elements(toBeOrdered);
    OneMoreRemoved(deps, ordered, name, after);
  }

  datatype Outcome = Ordered(order: seq<string>) | Circular(names: set<string>)

  /**
    The least order if there is any order, else the error: exactly for a cycle or a dependency on an unknown name.
    The error names the circular part of the packages that cannot be ordered, which is empty without a cycle.
  */
  ghost predicate IsRightOutcome(deps: Packages, r: Outcome, stuck: set<string>) {
    && (r.Ordered? ==> IsLeastOrder(deps, r.order))
    && (r.Circular? <==> !HasOrder(deps))
    && (r.Circular? <==> HasCycle(deps) || !Closed(deps))
    && (r.Circular? ==> && IsStuckSet(deps, stuck) && IsCircularPart(deps, stuck, r.names)
                        && (r.names != {} <==> HasCycle(deps)))
  }

  class PackageMap {
    var packages: Packages

    constructor (packages: Packages)
      ensures this.packages == packages
    {
      this.packages := packages;
    }

    /** list(packages.keys()), in whatever order the dictionary has. */
    method Keys() returns (keys: seq<string>)
      ensures Distinct(keys) && Elements(keys) == packages.Keys
    {
      keys := [];
      var rest := packages.Keys;
      while rest != {}
        invariant Distinct(keys) && Elements(keys) !! rest && Elements(keys) + rest == packages.Keys
        decreases rest
      {
        var k :| k in rest;
        assert k !in Elements(keys);
        rest := rest - {k};
        keys := keys + [k];
      }
    }

    /** The filter that ends get_packages: dependencies on packages that were not found are dropped. */
    method DropUnknownDependencies()
      modifies this
      ensures packages.Keys == old(packages.Keys)
      ensures forall k | k in packages :: packages[k] == old(packages)[k] * old(packages.Keys)
      ensures Closed(packages)
    {
      var names := packages.Keys;
      var keys := Keys();
      var i := 0;
      while i < |keys|
        invariant 0 <= i <= |keys|
        invariant packages.Keys == names
        invariant forall k | k in packages ::
                    packages[k] == if k in keys[..i] then old(packages)[k] * names else old(packages)[k]
      {
        assert keys[i] in Elements(keys);
        packages := packages[keys[i] := set d | d in packages[keys[i]] && d in names];
        i := i + 1;
      }
      forall k | k in packages
        ensures k in keys[..i]
      {
        assert k in Elements(keys);
      }
    }

    /** Removes an ordered package from every dependency set. */
    method RemoveDependency(name: string)
      modifies this
      ensures packages.Keys == old(packages.Keys)
      ensures forall k | k in packages :: packages[k] == old(packages)[k] - {name}
    {
      var keys := Keys();
      var i := 0;
      while i < |keys|
        invariant 0 <= i <= |keys|
        invariant packages.Keys == old(packages.Keys)
        invariant forall k | k in packages ::
                    packages[k] == if k in keys[..i] then old(packages)[k] - {name} else old(packages)[k]
      {
        assert keys[i] in Elements(keys);
        if name in packages[keys[i]] {
          packages := packages[keys[i] := packages[keys[i]] - {name}];
        }
        i := i + 1;
      }
      forall k | k in packages
        ensures k in keys[..i]
      {
        assert k in Elements(keys);
      }
    }

    /** The dependencies of all packages together. */
    method CollectDepended() returns (depended: set<string>)
      ensures depended == Depended(packages)
    {
      depended := {};
      var keys := Keys();
      var i := 0;
      while i < |keys|
        invariant 0 <= i <= |keys|
        invariant forall d :: d in depended <==> exists k :: k in keys[..i] && k in packages && d in packages[k]
      {
        assert keys[i] in Elements(keys);
        assert keys[..i + 1] == keys[..i] + [keys[i]];
        depended := depended + packages[keys[i]];
        i := i + 1;
      }
      assert keys[..i] == keys;
      forall k | k in packages
        ensures k in keys
      {
        assert k in Elements(keys);
      }
    }

    /** Deletes every package that is not in the given set. */
    method KeepOnly(names: set<string>)
      modifies this
      ensures packages == Restrict(old(packages), names)
    {
      var keys := Keys();
      var i := 0;
      while i < |keys|
        invariant 0 <= i <= |keys|
        invariant packages == map k | k in old(packages) && (k !in keys[..i] || k in names) :: old(packages)[k]
      {
        assert keys[i] in Elements(keys);
        assert keys[i] in packages;
        if keys[i] !in names {
          packages := packages - {keys[i]};
        }
        i := i + 1;
      }
      forall k | k in old(packages)
        ensures k in keys[..i]
      {
        assert k in Elements(keys);
      }
    }

    /** Fixpoint iteration; an empty `lastDepended` stands for Python's None, which is as false as it. */
    method ReduceCycleSet()
      modifies this
      ensures IsGreatestDependedSet(old(packages), packages.Keys)
      ensures packages == Restrict(old(packages), packages.Keys)
    {
      var lastDepended: set<string> := {};
      while |packages| > 0
        invariant packages == Restrict(old(packages), packages.Keys)
        invariant forall s | IsDependedSet(old(packages), s) :: s <= packages.Keys
        invariant lastDepended != {} ==> packages.Keys <= lastDepended
        decreases packages.Keys, if lastDepended == Depended(packages) then 0 else 1
      {
        ghost var before := packages;
        var depended := CollectDepended();
        KeepOnly(depended);
        DependedSetSurvives(old(packages), before, packages);
        if lastDepended != {} && lastDepended == depended {
          FixpointIsDepended(old(packages), before, packages);
          return;
        }
        lastDepended := depended;
      }
      assert packages.Keys == {};
    }

    /** Alphabetical topological order, or the packages that make one impossible. */
    method OrderPackages() returns (r: Outcome, ghost stuck: set<string>)
      modifies this
      ensures IsRightOutcome(old(packages), r, stuck)
    {
      ghost var deps := packages;
      stuck := {};
      var toBeOrdered := Keys();
      var ordered: seq<string> := [];
      assert Elements(ordered) == {};
      NothingRemoved(deps);
      while toBeOrdered != []
        invariant IsProgress(deps, toBeOrdered, ordered, packages)
        invariant IsGreedyPrefix(deps, ordered)
        decreases |toBeOrdered|
      {
        var found, name := NextPackage(deps, toBeOrdered, ordered);
        if !found {
          ReduceCycleSet();
          stuck := deps.Keys - Elements(ordered);
          StuckOutcome(deps, ordered, packages.Keys);
          return Circular(packages.Keys), stuck;
        }
        GreedyStep(deps, ordered, name);
        ghost var before := packages;
        RemoveDependency(name);
        ProgressStep(deps, toBeOrdered, ordered, before, name, packages);
        toBeOrdered := Without(toBeOrdered, name);
        ordered := ordered + [name];
      }
      OrderedOutcome(deps, ordered, stuck);
      r := Ordered(ordered);
    }

    /** The alphabetically first of the names to be ordered that have no dependency left. */
    method NextPackage(ghost deps: Packages, toBeOrdered: seq<string>, ghost ordered: seq<string>)
      returns (found: bool, name: string)
      requires IsProgress(deps, toBeOrdered, ordered, packages) && toBeOrdered != []
      ensures found ==> name in toBeOrdered && IsReady(deps, Elements(ordered), name)
      ensures found ==> forall n | IsReady(deps, Elements(ordered), n) :: n == name || Before(name, n)
      ensures !found ==> NothingReady(deps, Elements(ordered)) && !(deps.Keys <= Elements(ordered))
    {
      assert toBeOrdered[0] in Elements(toBeOrdered);
      forall n | n in toBeOrdered
        ensures n in packages
      {
        assert n in Elements(toBeOrdered);
      }
      var withoutDeps := FilterReady(toBeOrdered);
      ReadyNames(deps, ordered, toBeOrdered, packages, withoutDeps);
      if withoutDeps == [] {
        return false, "";
      }
      found := true;
      name := First(withoutDeps);
    }

    /** [name for name in to_be_ordered if not packages[name]] */
    method FilterReady(names: seq<string>) returns (ready: seq<string>)
      requires forall n | n in names :: n in packages
      ensures forall n :: n in ready <==> n in names && packages[n] == {}
    {
      ready := [];
      var i := 0;
      while i < |names|
        invariant 0 <= i <= |names|
        invariant forall n :: n in ready <==> n in names[..i] && packages[n] == {}
      {
        if packages[names[i]] == {} {
          ready := ready + [names[i]];
        }
        i := i + 1;
      }
    }
  }

  lemma DependedSetSurvives(deps: Packages, before: Packages, after: Packages)
    requires before == Restrict(deps, before.Keys) && after == Restrict(before, Depended(before))
    requires forall s | IsDependedSet(deps, s) :: s <= before.Keys
    ensures after == Restrict(deps, after.Keys)
    ensures forall s | IsDependedSet(deps, s) :: s <= after.Keys
  {
    forall s, x: string | IsDependedSet(deps, s) && x in s
      ensures x in after
    {
      var y :| y in Dependents(deps, x) * s;
      assert y in before && x in before[y];
    }
  }

  lemma FixpointIsDepended(deps: Packages, before: Packages, after: Packages)
    requires before == Restrict(deps, before.Keys) && after == Restrict(before, Depended(before))
    requires before.Keys <= Depended(before)
    ensures IsDependedSet(deps, after.Keys)
  {
    forall x | x in after
      ensures Dependents(deps, x) * after.Keys != {}
    {
      var y :| y in before && x in before[y];
      assert y in Dependents(deps, x) * after.Keys;
    }
  }

  lemma ReadyNames(deps: Packages, ordered: seq<string>, toBeOrdered: seq<string>, packages: Packages, ready: seq<string>)
    requires Elements(toBeOrdered) == deps.Keys - Elements(ordered)
    requires packages == Remaining(deps, Elements(ordered))
    requires forall n :: n in ready <==> n in toBeOrdered && n in packages && packages[n] == {}
    ensures forall n :: IsReady(deps, Elements(ordered), n) <==> n in ready
  {
    var done := Elements(ordered);
    forall n: string
      ensures IsReady(deps, done, n) <==> n in ready
    {
      assert n in Elements(toBeOrdered) <==> n in toBeOrdered;
      if n in deps {
        assert packages[n] == deps[n] - done;
        EmptyDifference(deps[n], done);
      }
    }
  }

  lemma EmptyDifference(a: set<string>, b: set<string>)
    ensures a - b == {} <==> a <= b
  {
    if a - b == {} {
      forall x | x in a
        ensures x in b
      {
        assert x in b || x in a - b;
      }
    }
  }

  lemma NothingRemoved(deps: Packages)
    ensures Remaining(deps, {}) == deps
  {
    forall k | k in deps
      ensures Remaining(deps, {})[k] == deps[k]
    {
    }
  }

  lemma OneMoreRemoved(deps: Packages, ordered: seq<string>, name: string, packages: Packages)
    requires packages.Keys == deps.Keys
    requires forall k | k in packages :: packages[k] == Remaining(deps, Elements(ordered))[k] - {name}
    ensures Elements(ordered + [name]) == Elements(ordered) + {name}
    ensures packages == Remaining(deps, Elements(ordered + [name]))
  {
    var after := Remaining(deps, Elements(ordered + [name]));
    forall k | k in packages
      ensures packages[k] == after[k]
    {
    }
  }

  lemma StuckHasNoOrder(deps: Packages, ordered: seq<string>)
    requires NothingReady(deps, Elements(ordered)) && !(deps.Keys <= Elements(ordered))
    ensures !HasOrder(deps)
  {
    forall o
      ensures !IsOrder(deps, o)
    {
      StuckMeansNoOrder(deps, Elements(ordered), o);
    }
  }

  lemma StuckOutcome(deps: Packages, ordered: seq<string>, names: set<string>)
    requires DependenciesComeFirst(deps, ordered)
    requires NothingReady(deps, Elements(ordered)) && !(deps.Keys <= Elements(ordered))
    requires IsGreatestDependedSet(Remaining(deps, Elements(ordered)), names)
    ensures IsRightOutcome(deps, Circular(names), deps.Keys - Elements(ordered))
  {
    hide HasOrder, HasCycle, Closed, IsStuckSet, IsCircularPart;
    hide NothingReady, DependenciesComeFirst, IsGreatestDependedSet;
    var stuck := deps.Keys - Elements(ordered);
    StuckHasNoOrder(deps, ordered);
    HasOrderExactly(deps);
    RestIsStuckSet(deps, ordered);
    CircularPartOfRemaining(deps, ordered, names);
    CircularPartHasCycleExactly(deps, stuck, names);
  }

  lemma OrderedOutcome(deps: Packages, ordered: seq<string>, stuck: set<string>)
    requires IsGreedyPrefix(deps, ordered) && Elements(ordered) == deps.Keys
    ensures IsRightOutcome(deps, Ordered(ordered), stuck)
  {
    GreedyOrderIsLeast(deps, ordered);
    HasOrderExactly(deps);
    assert HasOrder(deps);
  }
}
