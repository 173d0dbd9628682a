/** What the steps applied to the loaded OMAS schema compute, stated on
    immutable values: `prune` with `arbitrary_fixes`, and `to_benedict`. */
module OmasSchema {
  import opened Json
  import opened Strings
  import opened Paths
  import opened Tree
  import opened OmasKeys

  /** The keys of `keys` that prune keeps, in their order. */
  function KeptKeys(keys: seq<string>): (r: seq<string>)
    ensures forall k :: k in r <==> k in keys && !Dropped(k)
  {
    if keys == [] then []
    else (if Dropped(keys[0]) then [] else [keys[0]]) + KeptKeys(keys[1..])
  }

  /** `list(filter(drop_key, gk))`: the keys prune deletes, in their order. */
  function DoomedKeys(keys: seq<string>): (r: seq<string>)
    ensures forall k :: k in r <==> k in keys && Dropped(k)
  {
    if keys == [] then []
    else (if Dropped(keys[0]) then [keys[0]] else []) + DoomedKeys(keys[1..])
  }

  /** `keys` without the members of `gone`, in order. */
  function Except(keys: seq<string>, gone: set<string>): (r: seq<string>)
    ensures forall k :: k in r <==> k in keys && k !in gone
  {
    if keys == [] then []
    else (if keys[0] in gone then [] else [keys[0]]) + Except(keys[1..], gone)
  }

  predicate Distinct(keys: seq<string>)
  {
    forall i, j :: 0 <= i < j < |keys| ==> keys[i] != keys[j]
  }

  lemma {:induction false} ExceptDistinct(keys: seq<string>, gone: set<string>)
    requires Distinct(keys)
    ensures Distinct(Except(keys, gone))
  {
    if keys != [] {
      ExceptDistinct(keys[1..], gone);
    }
  }

  lemma {:induction false} DoomedDistinct(keys: seq<string>)
    requires Distinct(keys)
    ensures Distinct(DoomedKeys(keys))
  {
    if keys != [] {
      DoomedDistinct(keys[1..]);
    }
  }

  lemma {:induction false} ExceptExcept(keys: seq<string>, a: set<string>, b: set<string>)
    ensures Except(Except(keys, a), b) == Except(keys, a + b)
  {
    if keys != [] {
      var k, rest := keys[0], keys[1..];
      ExceptExcept(rest, a, b);
      var t := Except(rest, a);
      if k in a {
        assert Except(keys, a) == t;
      } else {
        assert Except(keys, a) == [k] + t;
        assert ([k] + t)[1..] == t;
      }
    }
  }

  lemma {:induction false} ExceptNothing(keys: seq<string>)
    ensures Except(keys, {}) == keys
  {
    if keys != [] {
      ExceptNothing(keys[1..]);
    }
  }

  /** Removing exactly the doomed keys leaves exactly the kept keys. */
  lemma {:induction false} ExceptDoomed(keys: seq<string>, gone: set<string>)
    requires forall k :: k in keys ==> (k in gone <==> Dropped(k))
    ensures Except(keys, gone) == KeptKeys(keys)
  {
    if keys != [] {
      ExceptDoomed(keys[1..], gone);
    }
  }

  /** The entries of `m` whose keys prune keeps. */
  function KeptEntries(m: map<string, Json>): (r: map<string, Json>)
  {
    map k | k in m && !Dropped(k) :: m[k]
  }

  /** `arbitrary_fixes` on an immutable mapping: the fixed entry's `data_type`
      becomes `FLT_0D`; a missing entry raises KeyError, a non-dict entry
      TypeError. */
  function Fixed(m: map<string, Json>): (r: Result<map<string, Json>>)
  {
    if FixKey !in m then Err(KeyError(FixKey))
    else if !m[FixKey].Obj? then Err(TypeError)
    else Ok(m[FixKey := Obj(m[FixKey].fields["data_type" := Str(FixedDataType)])])
  }

  /** What `prune(gk)` leaves in `gk`, or the exception it raises. */
  function Pruned(m: map<string, Json>): (r: Result<map<string, Json>>)
  {
    Fixed(KeptEntries(m))
  }

  /** After prune no key contains a denylisted substring. */
  lemma PrunedNoDenied(m: map<string, Json>)
    requires Pruned(m).Ok?
    ensures forall k :: k in Pruned(m).value ==> !Dropped(k)
  {
    FixKeyKept();
  }

  /** prune keeps every key free of denylisted substrings, changes only the
      fixed entry's `data_type`, and fails exactly when that entry is absent
      or not a dict. */
  lemma PrunedKeepsOthers(m: map<string, Json>)
    ensures Pruned(m).Ok? <==> FixKey in m && m[FixKey].Obj?
    ensures Pruned(m).Err? ==> Pruned(m).error == (if FixKey in m then TypeError else KeyError(FixKey))
    ensures Pruned(m).Ok? ==>
      var r := Pruned(m).value;
      r.Keys == set k | k in m && !Dropped(k) &&
      (forall k :: k in r && k != FixKey ==> r[k] == m[k]) &&
      r[FixKey] == Obj(m[FixKey].fields["data_type" := Str(FixedDataType)])
  {
    FixKeyKept();
  }

  /** Pruning the output of prune changes nothing. */
  lemma PruneIdempotent(m: map<string, Json>)
    requires Pruned(m).Ok?
    ensures Pruned(Pruned(m).value) == Pruned(m)
  {
    FixKeyKept();
    var r := Pruned(m).value;
    assert KeptEntries(r) == r;
    var f := r[FixKey].fields;
    assert f["data_type" := Str(FixedDataType)] == f;
    assert r[FixKey := Obj(f)] == r;
  }

  /** The key-path assignments `to_benedict` performs, in the dict's order:
      each entry goes to the path of its marker-free name. */
  function BenedictPlacements(order: seq<string>, entries: map<string, Json>): (ps: seq<(seq<string>, Json)>)
    requires forall k :: k in order ==> k in entries
    ensures |ps| == |order|
    ensures forall i :: 0 <= i < |ps| ==> ps[i] == (KeyPath(order[i]), entries[order[i]])
  {
    seq(|order|, i requires 0 <= i < |order| => (KeyPath(order[i]), entries[order[i]]))
  }

  /** `result["gyrokinetics"]` on the nested dict. */
  function WrapperSubtree(t: map<string, Json>): Result<Json>
  {
    if Wrapper in t then Ok(t[Wrapper]) else Err(KeyError(Wrapper))
  }

  /** What `to_benedict` returns for the dict with keys `order` and entries `entries`. */
  function Benedict(order: seq<string>, entries: map<string, Json>): Result<Json>
    requires forall k :: k in order ==> k in entries
  {
    WrapperSubtree(Build(BenedictPlacements(order, entries)))
  }

  /** to_benedict fails, with KeyError on the wrapper, exactly when no key's
      path starts with the wrapper. */
  lemma BenedictFails(order: seq<string>, entries: map<string, Json>)
    requires forall k :: k in order ==> k in entries
    ensures Benedict(order, entries).Err? <==> forall i :: 0 <= i < |order| ==> KeyPath(order[i])[0] != Wrapper
    ensures Benedict(order, entries).Err? ==> Benedict(order, entries).error == KeyError(Wrapper)
  {
    var ps := BenedictPlacements(order, entries);
    if Benedict(order, entries).Ok? {
      var i :| 0 <= i < |ps| && ps[i].0[0] == Wrapper;
      assert KeyPath(order[i])[0] == Wrapper;
    }
  }

  /** An entry whose marker-free name is `gyrokinetics.<rest>` is found at
      `<rest>` in the result, unless a later entry's path goes through it or
      stops on the way to it. */
  lemma BenedictPlaces(order: seq<string>, entries: map<string, Json>, i: int, rest: seq<string>)
    requires forall k :: k in order ==> k in entries
    requires 0 <= i < |order| && KeyPath(order[i]) == [Wrapper] + rest
    requires forall j :: i < j < |order| ==> Unrelated(KeyPath(order[i]), KeyPath(order[j]))
    ensures Benedict(order, entries).Ok?
    ensures Lookup(Benedict(order, entries).value, rest) == Some(entries[order[i]])
  {
    var ps := BenedictPlacements(order, entries);
    BuildLookup(ps, i);
    assert ([Wrapper] + rest)[1..] == rest;
  }

  /** An entry that is a dictionary and is followed only by entries
      unrelated to it or below it is found at `<rest>` merged with them: its
      own fields plus one key for each later entry below it. */
  lemma BenedictMerges(order: seq<string>, entries: map<string, Json>, i: int, rest: seq<string>)
    requires forall k :: k in order ==> k in entries
    requires 0 <= i < |order| && KeyPath(order[i]) == [Wrapper] + rest && entries[order[i]].Obj?
    requires forall j :: i < j < |order| ==>
      Unrelated(KeyPath(order[i]), KeyPath(order[j])) || KeyPath(order[i]) < KeyPath(order[j])
    ensures Benedict(order, entries).Ok?
    ensures Merged(Lookup(Benedict(order, entries).value, rest), entries[order[i]].fields,
      set j | i < j < |order| && KeyPath(order[i]) < KeyPath(order[j]) :: KeyPath(order[j])[|KeyPath(order[i])|])
  {
    var ps := BenedictPlacements(order, entries);
    BuildMerge(ps, i);
    assert ([Wrapper] + rest)[1..] == rest;
    var below := set j | i < j < |order| && KeyPath(order[i]) < KeyPath(order[j]) :: KeyPath(order[j])[|KeyPath(order[i])|];
    assert ChildKeys(ps, i) == below;
  }

  lemma {:induction false} ExceptNotIn(keys: seq<string>, key: string)
    requires key !in keys
    ensures Except(keys, {key}) == keys
  {
    if keys != [] {
      ExceptNotIn(keys[1..], key);
    }
  }
}
