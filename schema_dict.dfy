/** The loaded OMAS schema as the mutable Python dict `gk`, and the steps
    that work on it in place: removal of the `gyrokinetics` wrapper entry
    (read_schema), `prune`, `arbitrary_fixes`, and the traversal of
    `to_benedict`. */
module SchemaDict {
  import opened Json
  import opened Tree
  import opened Paths
  import opened OmasKeys
  import opened OmasSchema

  /** The mutable dict `gk`: its keys in insertion order and its entries. */
  class FlatSchema {
    var order: seq<string>
    var entries: map<string, Json>

    ghost predicate Valid()
      reads this
    {
      Distinct(order) && (forall k :: k in entries <==> k in order)
    }

    /** The dict produced by parsing the schema file. */
    constructor (order: seq<string>, entries: map<string, Json>)
      requires Distinct(order) && (forall k :: k in entries <==> k in order)
      ensures Valid() && this.order == order && this.entries == entries
    {
      this.order := order;
      this.entries := entries;
    }

    /** `del gk[key]`: KeyError when absent, otherwise the entry is gone and
        the remaining keys keep their order. */
    method Delete(key: string) returns (err: Option<Error>)
      requires Valid()
      modifies this
      ensures Valid()
      ensures err == if key in old(entries) then None else Some(KeyError(key))
      ensures entries == old(entries) - {key}
      ensures order == Except(old(order), {key})
    {
      if key !in entries {
        assert Except(order, {key}) == order by {
          ExceptNotIn(order, key);
        }
        return Some(KeyError(key));
      }
      ExceptDistinct(order, {key});
      entries := entries - {key};
      order := Except(order, {key});
      err := None;
    }

    /** The wrapper removal of read_schema: `del gk["gyrokinetics"]`. */
    method DropWrapper() returns (err: Option<Error>)
      requires Valid()
      modifies this
      ensures Valid()
      ensures err.None? <==> Wrapper in old(entries)
      ensures err.Some? ==> err.value == KeyError(Wrapper)
      ensures entries == old(entries) - {Wrapper}
      ensures order == Except(old(order), {Wrapper})
    {
      err := Delete(Wrapper);
    }

    /** `arbitrary_fixes(gk)`, in place. On an exception nothing changes. */
    method ArbitraryFixes() returns (err: Option<Error>)
      requires Valid()
      modifies this
      ensures Valid() && order == old(order)
      ensures err.None? ==> Fixed(old(entries)) == Ok(entries)
      ensures err.Some? ==> Fixed(old(entries)) == Err(err.value) && entries == old(entries)
    {
      if FixKey !in entries {
        return Some(KeyError(FixKey));
      }
      match entries[FixKey]
      case Obj(fields) =>
        entries := entries[FixKey := Obj(fields["data_type" := Str(FixedDataType)])];
        err := None;
      case _ =>
        err := Some(TypeError);
    }

    /** `for key in keys: del gk[key]`, for keys that are all present. */
    method DeleteAll(keys: seq<string>)
      requires Valid() && Distinct(keys)
      requires forall k :: k in keys ==> k in entries
      modifies this
      ensures Valid()
      ensures entries == old(entries) - KeySet(keys)
      ensures order == Except(old(order), KeySet(keys))
    {
      ExceptNothing(order);
      assert KeySet(keys[..0]) == {};
      for i := 0 to |keys|
        invariant Valid()
        invariant entries == old(entries) - KeySet(keys[..i])
        invariant order == Except(old(order), KeySet(keys[..i]))
      {
        var _ := Delete(keys[i]);
        DeleteStep(old(entries), old(order), keys, i);
      }
      assert keys[..|keys|] == keys;
    }

    /** `to_benedict(gk)`: assigns every entry, in order, at the key path of
        its marker-free name in a fresh nested dict, and returns the
        wrapper's subtree. */
    method ToBenedict() returns (r: Result<Json>)
      requires Valid()
      ensures r == Benedict(order, entries)
    {
      var keys, dict := order, entries;
      ghost var ps := BenedictPlacements(keys, dict);
      var result: map<string, Json> := map[];
      for i := 0 to |keys|
        invariant result == Build(ps[..i])
      {
        BuildPrefix(ps, i);
        result := SetPath(result, KeyPath(keys[i]), dict[keys[i]]);
      }
      assert ps[..|keys|] == ps;
      if Wrapper in result {
        r := Ok(result[Wrapper]);
      } else {
        r := Err(KeyError(Wrapper));
      }
    }
    /** `prune(gk)`: deletes every denylisted key in place, then applies the
        fixes. The deletions stay done when the fixes raise. */
    method Prune() returns (err: Option<Error>)
      requires Valid()
      modifies this
      ensures Valid()
      ensures order == KeptKeys(old(order))
      ensures err.None? ==> Pruned(old(entries)) == Ok(entries)
      ensures err.Some? ==> Pruned(old(entries)) == Err(err.value) && entries == KeptEntries(old(entries))
    {
      var doomed := DoomedKeys(order);
      DoomedDistinct(order);
      DeleteAll(doomed);
      assert entries == KeptEntries(old(entries));
      ExceptDoomed(old(order), set k | k in doomed);
      err := ArbitraryFixes();
    }
  }

  /** The keys of a sequence, as a set. */
  function KeySet(keys: seq<string>): (r: set<string>)
    ensures forall k :: k in r <==> k in keys
  {
    set k | k in keys
  }

  /** One more deletion in the loop of DeleteAll. */
  lemma DeleteStep(m: map<string, Json>, order: seq<string>, keys: seq<string>, i: int)
    requires 0 <= i < |keys|
    ensures m - KeySet(keys[..i]) - {keys[i]} == m - KeySet(keys[..i + 1])
    ensures Except(Except(order, KeySet(keys[..i])), {keys[i]}) == Except(order, KeySet(keys[..i + 1]))
  {
    assert KeySet(keys[..i + 1]) == KeySet(keys[..i]) + {keys[i]} by {
      assert keys[..i + 1] == keys[..i] + [keys[i]];
    }
    ExceptExcept(order, KeySet(keys[..i]), {keys[i]});
  }
}
