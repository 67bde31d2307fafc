/**
  The snapshot of builtin types' members taken at start-up: for each type one dictionary
  flattened over its method resolution order.
*/
module BuiltinMembers {
  import opened Basics

  /** A type's own dictionary, in iteration order; values are object identities. */
  type Dict = seq<(string, int)>

  datatype TypeObj = TypeObj(id: nat, mro: Option<seq<Dict>>)

  // ----- attribute lookup along the method resolution order

  function DictGet(d: Dict, key: string): Option<int> {
    if d == [] then None
    else if d[0].0 == key then Some(d[0].1)
    else DictGet(d[1..], key)
  }

  /** A dictionary's value of a name is that of its entry for the name, the first if there were several. */
  lemma {:induction false} DictGetExactly(d: Dict, key: string, i: nat)
    requires i <= |d| && forall j :: 0 <= j < i ==> d[j].0 != key
    ensures i < |d| && d[i].0 == key ==> DictGet(d, key) == Some(d[i].1)
    ensures i == |d| ==> DictGet(d, key) == None
    decreases |d|
  {
    if i > 0 { DictGetExactly(d[1..], key, i - 1); }
  }

  /** The value from the first base that defines the name. */
  function Lookup(mro: seq<Dict>, key: string): Option<int> {
    if mro == [] then None
    else if DictGet(mro[0], key).Some? then DictGet(mro[0], key)
    else Lookup(mro[1..], key)
  }

  function Get(m: map<string, int>, key: string): Option<int> {
    if key in m then Some(m[key]) else None
  }

  function OrElse(a: Option<int>, b: Option<int>): Option<int> {
    if a.Some? then a else b
  }

  lemma {:induction false} DictGetAppend(d: Dict, e: Dict, key: string)
    ensures DictGet(d + e, key) == OrElse(DictGet(d, key), DictGet(e, key))
    decreases |d|
  {
    if d == [] {
      assert d + e == e;
    } else {
      assert (d + e)[1..] == d[1..] + e;
      DictGetAppend(d[1..], e, key);
    }
  }

  lemma {:induction false} LookupAppend(a: seq<Dict>, b: seq<Dict>, key: string)
    ensures Lookup(a + b, key) == OrElse(Lookup(a, key), Lookup(b, key))
    decreases |a|
  {
    if a == [] {
      assert a + b == b;
    } else {
      assert (a + b)[1..] == a[1..] + b;
      LookupAppend(a[1..], b, key);
    }
  }

  // ----- the snapshot

  /** Copy the entries of one base that no earlier base supplied. */
  method AddBase(members: map<string, int>, base: Dict) returns (r: map<string, int>)
    ensures forall key :: Get(r, key) == OrElse(Get(members, key), DictGet(base, key))
  {
    r := members;
    for i := 0 to |base|
      invariant forall key :: Get(r, key) == OrElse(Get(members, key), DictGet(base[..i], key))
    {
      var (key, value) := base[i];
      assert base[..i + 1] == base[..i] + [base[i]];
      forall k
        ensures DictGet(base[..i + 1], k) == OrElse(DictGet(base[..i], k), if k == key then Some(value) else None)
      {
        DictGetAppend(base[..i], [base[i]], k);
      }
      if key in r { continue; }
      r := r[key := value];
    }
    assert base[..|base|] == base;
  }

  /** The flattened dictionary answers every name as the lookup along the order does. */
  method Flatten(mro: seq<Dict>) returns (members: map<string, int>)
    ensures forall key :: Get(members, key) == Lookup(mro, key)
  {
    members := map[];
    for i := 0 to |mro|
      invariant forall key :: Get(members, key) == Lookup(mro[..i], key)
    {
      assert mro[..i + 1] == mro[..i] + [mro[i]];
      forall k ensures Lookup(mro[..i + 1], k) == OrElse(Lookup(mro[..i], k), DictGet(mro[i], k)) {
        LookupAppend(mro[..i], [mro[i]], k);
        assert Lookup([mro[i]], k) == DictGet(mro[i], k);
      }
      members := AddBase(members, mro[i]);
    }
    assert mro[..|mro|] == mro;
  }

  /**
    initBuiltinMembers: exactly the types that have a method resolution order get an entry,
    and each entry agrees with the lookup on every name.
  */
  method InitBuiltinMembers(types: seq<TypeObj>) returns (builtin: map<nat, map<string, int>>)
    requires forall i, j :: 0 <= i < |types| && 0 <= j < |types| && types[i].id == types[j].id ==> types[i] == types[j]
    ensures forall id :: id in builtin <==> exists i :: 0 <= i < |types| && types[i].id == id && types[i].mro.Some?
    ensures forall i, key :: 0 <= i < |types| && types[i].mro.Some? ==>
      types[i].id in builtin && Get(builtin[types[i].id], key) == Lookup(types[i].mro.value, key)
  {
    builtin := map[];
    for n := 0 to |types|
      invariant forall id :: id in builtin <==> exists i :: 0 <= i < n && types[i].id == id && types[i].mro.Some?
      invariant forall i, key :: 0 <= i < n && types[i].mro.Some? ==>
        types[i].id in builtin && Get(builtin[types[i].id], key) == Lookup(types[i].mro.value, key)
    {
      var type_ := types[n];
      if type_.mro.None? { continue; }
      var members := Flatten(type_.mro.value);
      if type_.id !in builtin {   // emplace keeps an existing entry
        builtin := builtin[type_.id := members];
      }
    }
  }

  lemma {:induction false} LookupKeys(mro: seq<Dict>, key: string)
    ensures Lookup(mro, key).Some? <==> exists i :: 0 <= i < |mro| && DictGet(mro[i], key).Some?
    decreases |mro|
  {
    if mro != [] {
      LookupKeys(mro[1..], key);
      if i :| 0 <= i < |mro[1..]| && DictGet(mro[1..][i], key).Some? {
        assert mro[i + 1] == mro[1..][i];
      }
      assert forall i :: 1 <= i < |mro| ==> mro[i] == mro[1..][i - 1];
    }
  }

  /** The value of a name is the one of the first base defining it. */
  lemma {:induction false} LookupFirst(mro: seq<Dict>, key: string, i: nat)
    requires i < |mro| && DictGet(mro[i], key).Some?
    requires forall j :: 0 <= j < i ==> DictGet(mro[j], key).None?
    ensures Lookup(mro, key) == DictGet(mro[i], key)
    decreases i
  {
    if i > 0 {
      assert forall j :: 0 <= j < i - 1 ==> mro[1..][j] == mro[j + 1];
      LookupFirst(mro[1..], key, i - 1);
    }
  }
}
