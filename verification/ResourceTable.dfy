/**
  src/MACEDigiMeshWrapper/resource.h: the table of known resources, as two nested maps that must agree on
  which resources live on this node (address 0).
*/
module ResourceTable {
  import opened Wrappers

  type Key = seq<string>
  type Value = seq<int>
  type Address = int

  /** The address of a resource on this node. */
  const LOCAL: Address := 0x00

  /** m_InternalResources and m_ResourcesToRadioAddr. */
  datatype Table = Table(internal: map<Key, seq<Value>>, addrs: map<Key, map<Value, Address>>)

  const EMPTY := Table(map[], map[])

  ghost predicate Distinct<T(!new)>(s: seq<T>) { forall i, j | 0 <= i < j < |s| :: s[i] != s[j] }

  // ---------------------------------------------------------------------------------------------
  // Meaning: one flat look-up from resources to addresses

  function Lookup(t: Table, key: Key, value: Value): Option<Address> {
    if Knows(t, key, value) then Some(t.addrs[key][value]) else None
  }

  ghost predicate SameKeys(t: Table) { t.internal.Keys == t.addrs.Keys }

  /** Both maps know the same keys, and each internal list holds exactly the local values, once each. */
  ghost predicate Consistent(t: Table) {
    && SameKeys(t)
    && forall k | k in t.internal ::
         Distinct(t.internal[k]) && forall v :: v in t.internal[k] <==> v in t.addrs[k] && t.addrs[k][v] == LOCAL
  }

  // ---------------------------------------------------------------------------------------------
  // Operations on the two maps

  datatype Op =
    | AddInternal(key: Key, value: Value)
    | RemoveInternal(key: Key, value: Value)
    | AddExternal(key: Key, value: Value, addr: Address)
    | RemoveExternal(key: Key, value: Value)

  predicate Knows(t: Table, key: Key, value: Value) { key in t.addrs && value in t.addrs[key] }

  predicate IsLocal(t: Table, key: Key, value: Value) { Knows(t, key, value) && t.addrs[key][value] == LOCAL }

  function WithKey(t: Table, key: Key): Table {
    if key in t.addrs then t else Table(t.internal[key := []], t.addrs[key := map[]])
  }

  function RemoveFirst(values: seq<Value>, value: Value): seq<Value> {
    if values == [] then [] else if values[0] == value then values[1..]
    else [values[0]] + RemoveFirst(values[1..], value)
  }

  function ListOf(t: Table, key: Key): seq<Value> { if key in t.internal then t.internal[key] else [] }

  function Apply(t: Table, op: Op): Table {
    match op
    case AddInternal(key, value) =>
      if Knows(t, key, value) then t
      else
        var u := WithKey(t, key);
        Table(u.internal[key := ListOf(u, key) + [value]], u.addrs[key := u.addrs[key][value := LOCAL]])
    case RemoveInternal(key, value) =>
      if !Knows(t, key, value) then t
      else Table(t.internal[key := RemoveFirst(ListOf(t, key), value)], t.addrs[key := t.addrs[key] - {value}])
    case AddExternal(key, value, addr) =>
      if Knows(t, key, value) then t
      else
        var u := WithKey(t, key);
        u.(addrs := u.addrs[key := u.addrs[key][value := addr]])
    case RemoveExternal(key, value) =>
      if !Knows(t, key, value) then t else t.(addrs := t.addrs[key := t.addrs[key] - {value}])
  }

  /** What an operation does to the resource it names; every other resource is left alone. */
  function LookupAfter(before: Option<Address>, op: Op): Option<Address> {
    match op
    case AddInternal(_, _) => if before.Some? then before else Some(0)
    case AddExternal(_, _, addr) => if before.Some? then before else Some(addr)
    case RemoveInternal(_, _) => None
    case RemoveExternal(_, _) => None
  }

  /** The nested maps refine the flat look-up, in any state, for any operation and any resource. */
  lemma ApplyRefines(t: Table, op: Op, key: Key, value: Value)
    ensures Lookup(Apply(t, op), key, value)
         == if op.key == key && op.value == value then LookupAfter(Lookup(t, key, value), op)
            else Lookup(t, key, value)
  {
  }

  /** The operations that keep the two maps in agreement. */
  predicate Permitted(t: Table, op: Op) {
    match op
    case AddExternal(key, value, addr) => addr != LOCAL || Knows(t, key, value)
    case RemoveExternal(key, value) => !IsLocal(t, key, value)
    case _ => true
  }

  lemma {:induction false} RemoveFirstKeeps(values: seq<Value>, value: Value)
    requires Distinct(values)
    ensures Distinct(RemoveFirst(values, value))
    ensures forall v :: v in RemoveFirst(values, value) <==> v in values && v != value
  {
    if values != [] {
      RemoveFirstKeeps(values[1..], value);
      assert values == [values[0]] + values[1..];
      var rest := RemoveFirst(values[1..], value);
      assert forall i | 0 <= i < |rest| :: rest[i] in rest;
      assert forall i | 1 <= i < |values| :: values[i] == values[1..][i - 1];
    }
  }

  lemma PermittedKeepsConsistent(t: Table, op: Op)
    requires Consistent(t) && Permitted(t, op)
    ensures Consistent(Apply(t, op))
  {
    if op.RemoveInternal? {
      RemoveFirstKeeps(ListOf(t, op.key), op.value);
    }
  }

  /** An operation keeps the two maps in agreement exactly when it is permitted. */
  lemma ConsistentExactly(t: Table, op: Op)
    requires Consistent(t)
    ensures Consistent(Apply(t, op)) <==> Permitted(t, op)
  {
    if Permitted(t, op) {
      PermittedKeepsConsistent(t, op);
    } else {
      var u := Apply(t, op);
      assert op.value in u.internal[op.key] <==> op.RemoveExternal?;
    }
  }

  // ---------------------------------------------------------------------------------------------
  // Runs

  /** In every run whatever, both maps know the same keys, so looking a list up by a known key never throws. */
  lemma {:induction false} RunsKeepSameKeys(t: Table, ops: seq<Op>)
    requires SameKeys(t)
    ensures SameKeys(ApplyAll(t, ops))
    decreases |ops|
  {
    if ops != [] { RunsKeepSameKeys(Apply(t, ops[0]), ops[1..]); }
  }

  function ApplyAll(t: Table, ops: seq<Op>): Table
    decreases |ops|
  {
    if ops == [] then t else ApplyAll(Apply(t, ops[0]), ops[1..])
  }

  predicate AllPermitted(t: Table, ops: seq<Op>)
    decreases |ops|
  {
    ops == [] || (Permitted(t, ops[0]) && AllPermitted(Apply(t, ops[0]), ops[1..]))
  }

  /** In every run of permitted operations the two maps agree. */
  lemma {:induction false} RunsAreConsistent(t: Table, ops: seq<Op>)
    requires Consistent(t) && AllPermitted(t, ops)
    ensures Consistent(ApplyAll(t, ops))
    decreases |ops|
  {
    if ops != [] {
      PermittedKeepsConsistent(t, ops[0]);
      RunsAreConsistent(Apply(t, ops[0]), ops[1..]);
    }
  }

  predicate Removes(op: Op, key: Key, value: Value) {
    (op.RemoveInternal? || op.RemoveExternal?) && op.key == key && op.value == value
  }

  /** An address, once held, is never replaced before the resource is removed. */
  lemma {:induction false} AddressIsKept(t: Table, ops: seq<Op>, key: Key, value: Value)
    requires Knows(t, key, value)
    requires forall i | 0 <= i < |ops| :: !Removes(ops[i], key, value)
    ensures Lookup(ApplyAll(t, ops), key, value) == Lookup(t, key, value)
    decreases |ops|
  {
    if ops != [] {
      var u := Apply(t, ops[0]);
      assert !Removes(ops[0], key, value);
      ApplyRefines(t, ops[0], key, value);
      assert forall i | 0 <= i < |ops[1..]| :: ops[1..][i] == ops[i + 1];
      AddressIsKept(u, ops[1..], key, value);
    }
  }

  // ---------------------------------------------------------------------------------------------
  // Look-up

  /** Every queried name occurs in the key. */
  predicate Contains(key: Key, query: Key) { forall n | n in query :: n in key }

  predicate Matches(t: Table, query: Key, internalOnly: bool, key: Key, value: Value) {
    Knows(t, key, value) && Contains(key, query) && (internalOnly ==> t.addrs[key][value] == LOCAL)
  }

  /** ResourceKey::containsKey */
  method ContainsKey(key: Key, rhs: Key) returns (r: bool)
    ensures r <==> forall n | n in rhs :: n in key
  {
    var i := 0;
    while i < |rhs|
      invariant 0 <= i <= |rhs|
      invariant forall n | n in rhs[..i] :: n in key
    {
      var found := false;
      var j := 0;
      while j < |key|
        invariant 0 <= j <= |key|
        invariant !found && rhs[i] !in key[..j]
      {
        if key[j] == rhs[i] {
          found := true;
          break;
        }
        j := j + 1;
      }
      if !found {
        assert rhs[i] in rhs && key[..|key|] == key;
        return false;
      }
      assert rhs[..i + 1] == rhs[..i] + [rhs[i]];
      i := i + 1;
    }
    assert rhs[..|rhs|] == rhs;
    return true;
  }

  class ResourceList {
    var internalResources: map<Key, seq<Value>>
    var resourcesToRadioAddr: map<Key, map<Value, Address>>

    ghost function State(): Table
      reads this
    {
      Table(internalResources, resourcesToRadioAddr)
    }

    constructor ()
      ensures State() == EMPTY && Consistent(State()) && SameKeys(State())
    {
      internalResources := map[];
      resourcesToRadioAddr := map[];
    }

    /** Returns false where the source throws. */
    method AddInternalResource(key: Key, value: Value) returns (ok: bool)
      requires SameKeys(State())
      modifies this
      ensures ok <==> Lookup(old(State()), key, value).None?
      ensures State() == Apply(old(State()), AddInternal(key, value))
    {
      if key !in resourcesToRadioAddr {
        resourcesToRadioAddr := resourcesToRadioAddr[key := map[]];
        internalResources := internalResources[key := []];
      }
      if value in resourcesToRadioAddr[key] {
        return false;
      }
      resourcesToRadioAddr := resourcesToRadioAddr[key := resourcesToRadioAddr[key][value := LOCAL]];
      internalResources := internalResources[key := internalResources[key] + [value]];
      ok := true;
    }

    method RemoveInternalResource(key: Key, value: Value)
      requires SameKeys(State())
      modifies this
      ensures State() == Apply(old(State()), RemoveInternal(key, value))
    {
      if key !in resourcesToRadioAddr {
        return;
      }
      if value !in resourcesToRadioAddr[key] {
        return;
      }
      resourcesToRadioAddr := resourcesToRadioAddr[key := resourcesToRadioAddr[key] - {value}];
      var values := internalResources[key];
      var i := 0;
      while i < |values|
        invariant 0 <= i <= |values|
        invariant RemoveFirst(values, value) == values[..i] + RemoveFirst(values[i..], value)
        invariant internalResources == old(internalResources)
      {
        if values[i] == value {
          internalResources := internalResources[key := values[..i] + values[i + 1..]];
          assert values[i..][1..] == values[i + 1..];
          return;
        }
        assert values[i..][1..] == values[i + 1..];
        i := i + 1;
      }
      assert values[i..] == [] && values[..i] + [] == values;
      assert internalResources == internalResources[key := values];
    }

    /** The first result is false where the source throws, the second is what it returns. */
    method AddExternalResource(key: Key, value: Value, addr: Address) returns (ok: bool, added: bool)
      requires SameKeys(State())
      modifies this
      ensures var held := Lookup(old(State()), key, value);
              ok <==> held.None? || held.value == 0 || held.value == addr
      ensures added <==> !Knows(old(State()), key, value)
      ensures State() == Apply(old(State()), AddExternal(key, value, addr))
    {
      if key !in resourcesToRadioAddr {
        resourcesToRadioAddr := resourcesToRadioAddr[key := map[]];
        internalResources := internalResources[key := []];
      }
      if value in resourcesToRadioAddr[key] {
        if resourcesToRadioAddr[key][value] != LOCAL && resourcesToRadioAddr[key][value] != addr {
          return false, false;
        }
        return true, false;
      }
      resourcesToRadioAddr := resourcesToRadioAddr[key := resourcesToRadioAddr[key][value := addr]];
      return true, true;
    }

    method RemoveExternalResource(key: Key, value: Value)
      modifies this
      ensures State() == Apply(old(State()), RemoveExternal(key, value))
    {
      if key !in resourcesToRadioAddr {
        return;
      }
      if value !in resourcesToRadioAddr[key] {
        return;
      }
      resourcesToRadioAddr := resourcesToRadioAddr[key := resourcesToRadioAddr[key] - {value}];
    }

    method HasAddr(key: Key, value: Value) returns (r: bool)
      ensures r <==> Lookup(State(), key, value).Some?
    {
      r := key in resourcesToRadioAddr && value in resourcesToRadioAddr[key];
    }

    /** Calling it on an unknown resource throws; that is None here. */
    method GetAddr(key: Key, value: Value) returns (r: Option<Address>)
      ensures r == Lookup(State(), key, value)
    {
      if key !in resourcesToRadioAddr {
        return None;
      }
      if value !in resourcesToRadioAddr[key] {
        return None;
      }
      r := Some(resourcesToRadioAddr[key][value]);
    }

    /** Every matching resource once, in whatever order the maps have. */
    method GetResourcesMatch(query: Key, internalOnly: bool) returns (rtn: seq<(Key, Value)>)
      ensures Distinct(rtn)
      ensures forall k, v :: (k, v) in rtn <==>
                && Lookup(State(), k, v).Some? && (forall n | n in query :: n in k)
                && (internalOnly ==> Lookup(State(), k, v).value == 0)
      ensures internalOnly && Consistent(State()) ==>
                forall k, v :: (k, v) in rtn <==>
                  k in internalResources && Contains(k, query) && v in internalResources[k]
    {
      rtn := [];
      var keys := resourcesToRadioAddr.Keys;
      while keys != {}
        invariant keys <= resourcesToRadioAddr.Keys
        invariant Distinct(rtn)
        invariant forall k, v :: (k, v) in rtn <==> Matches(State(), query, internalOnly, k, v) && k !in keys
        decreases keys
      {
        var key :| key in keys;
        keys := keys - {key};
        var contained := ContainsKey(key, query);
        if contained {
          rtn := AddMatches(rtn, key, internalOnly);
        }
      }
    }

    /** The inner loop of the look-up, over the values of one key. */
    method AddMatches(found: seq<(Key, Value)>, key: Key, internalOnly: bool) returns (rtn: seq<(Key, Value)>)
      requires key in resourcesToRadioAddr
      requires Distinct(found) && forall v :: (key, v) !in found
      ensures Distinct(rtn)
      ensures forall k, v :: (k, v) in rtn <==>
                (k, v) in found
                || (k == key && v in resourcesToRadioAddr[key] && (internalOnly ==> resourcesToRadioAddr[key][v] == LOCAL))
    {
      rtn := found;
      var entries := resourcesToRadioAddr[key];
      var values := entries.Keys;
      while values != {}
        invariant values <= entries.Keys
        invariant Distinct(rtn)
        invariant forall k, v :: (k, v) in rtn <==>
                    (k, v) in found
                    || (k == key && v in entries && v !in values && (internalOnly ==> entries[v] == LOCAL))
        decreases values
      {
        var value :| value in values;
        values := values - {value};
        if internalOnly && entries[value] != LOCAL {
          continue;
        }
        assert (key, value) !in rtn;
        rtn := rtn + [(key, value)];
      }
    }
  }
}
