/** `to_json_schema`: every (name, node) item of the nested OMAS dict is
    converted and stored at the name's JSON-Schema key path. */
module JsonSchema {
  import opened Json
  import opened Strings
  import opened Paths
  import opened Tree
  import opened Convert

  /** Every node of the items converts without raising. */
  predicate Converts(items: seq<(string, Json)>)
  {
    forall i :: 0 <= i < |items| ==> ConvertValue(items[i].1).Some?
  }

  /** The assignments `to_json_schema` performs, in the dict's order, or
      `None` when one of the conversions raises. */
  function SchemaPlacements(items: seq<(string, Json)>): (ps: Option<seq<(seq<string>, Json)>>)
    ensures ps.Some? <==> Converts(items)
    ensures ps.Some? ==> |ps.value| == |items| && forall i :: 0 <= i < |items| ==> ps.value[i].0 != []
  {
    if Converts(items) then
      Some(seq(|items|, i requires 0 <= i < |items| => (NestedName(items[i].0), ConvertValue(items[i].1).value)))
    else None
  }

  /** The `i`-th assignment stores the converted node at the nested name. */
  lemma PlacementAt(items: seq<(string, Json)>, i: int)
    requires Converts(items) && 0 <= i < |items|
    ensures SchemaPlacements(items).value[i] == (NestedName(items[i].0), ConvertValue(items[i].1).value)
  {
  }

  /** What `to_json_schema` returns for the items of a dict. */
  function Schema(items: seq<(string, Json)>): Option<map<string, Json>>
  {
    match SchemaPlacements(items)
    case None => None
    case Some(ps) => Some(Build(ps))
  }

  /** `to_json_schema(d)` on `d.items()`. */
  method ToJsonSchema(items: seq<(string, Json)>) returns (r: Option<map<string, Json>>)
    ensures r == Schema(items)
  {
    var nested: map<string, Json> := map[];
    assert Converts(items[..0]);
    for i := 0 to |items|
      invariant Converts(items[..i])
      invariant nested == Build(SchemaPlacements(items[..i]).value)
    {
      var converted := ConvertValue(items[i].1);
      if converted.None? {
        return None;
      }
      var path := NestedName(items[i].0);
      PlacementsSnoc(items, i);
      BuildSnoc(SchemaPlacements(items[..i]).value, (path, converted.value));
      nested := SetPath(nested, path, converted.value);
    }
    assert items[..|items|] == items;
    r := Some(nested);
  }

  /** One more item converted adds its assignment at the end. */
  lemma PlacementsSnoc(items: seq<(string, Json)>, i: int)
    requires 0 <= i < |items| && Converts(items[..i]) && ConvertValue(items[i].1).Some?
    ensures Converts(items[..i + 1])
    ensures SchemaPlacements(items[..i + 1]) ==
      Some(SchemaPlacements(items[..i]).value + [(NestedName(items[i].0), ConvertValue(items[i].1).value)])
  {
    var front := items[..i];
    var longer := items[..i + 1];
    assert longer == front + [items[i]];
    assert Converts(longer) by {
      forall j | 0 <= j < |longer|
        ensures ConvertValue(longer[j].1).Some?
      {
        if j < i {
          assert longer[j] == front[j];
        }
      }
    }
    var a := SchemaPlacements(longer).value;
    var b := SchemaPlacements(front).value + [(NestedName(items[i].0), ConvertValue(items[i].1).value)];
    forall j | 0 <= j < |a|
      ensures a[j] == b[j]
    {
      PlacementAt(longer, j);
      if j < i {
        PlacementAt(front, j);
        assert longer[j] == front[j];
      }
    }
    assert a == b;
  }

  /** A converted node is found at the nested name of its key, unless a later
      item's path goes through that name or stops on the way to it. */
  lemma SchemaPlaces(items: seq<(string, Json)>, i: int)
    requires Schema(items).Some? && 0 <= i < |items|
    requires forall j :: i < j < |items| ==> Unrelated(NestedName(items[i].0), NestedName(items[j].0))
    ensures Lookup(Obj(Schema(items).value), NestedName(items[i].0)) == ConvertValue(items[i].1)
  {
    var ps := SchemaPlacements(items).value;
    PlacementAt(items, i);
    forall j | i < j < |ps|
      ensures Unrelated(ps[i].0, ps[j].0)
    {
      PlacementAt(items, j);
    }
    BuildLookup(ps, i);
  }

  /** A converted node followed only by items unrelated to it or below it
      is found at its nested name merged with them: its own fields plus one
      key for each later item below it. */
  lemma SchemaMerges(items: seq<(string, Json)>, i: int)
    requires Schema(items).Some? && 0 <= i < |items|
    requires forall j :: i < j < |items| ==>
      Unrelated(NestedName(items[i].0), NestedName(items[j].0)) || NestedName(items[i].0) < NestedName(items[j].0)
    ensures ConvertValue(items[i].1).Some? && ConvertValue(items[i].1).value.Obj?
    ensures Merged(Lookup(Obj(Schema(items).value), NestedName(items[i].0)), ConvertValue(items[i].1).value.fields,
      set j | i < j < |items| && NestedName(items[i].0) < NestedName(items[j].0) :: NestedName(items[j].0)[|NestedName(items[i].0)|])
  {
    var ps := SchemaPlacements(items).value;
    PlacementsAll(items);
    BuildMerge(ps, i);
    SchemaChildKeys(items, i);
  }

  /** Every assignment stores the converted node at the nested name. */
  lemma PlacementsAll(items: seq<(string, Json)>)
    requires Converts(items)
    ensures forall j :: 0 <= j < |items| ==>
      SchemaPlacements(items).value[j] == (NestedName(items[j].0), ConvertValue(items[j].1).value)
  {
    forall j | 0 <= j < |items|
      ensures SchemaPlacements(items).value[j] == (NestedName(items[j].0), ConvertValue(items[j].1).value)
    {
      PlacementAt(items, j);
    }
  }

  /** The keys added below the `i`-th item, read off the items. */
  lemma SchemaChildKeys(items: seq<(string, Json)>, i: int)
    requires Converts(items) && 0 <= i < |items|
    ensures ChildKeys(SchemaPlacements(items).value, i) ==
      set j | i < j < |items| && NestedName(items[i].0) < NestedName(items[j].0) :: NestedName(items[j].0)[|NestedName(items[i].0)|]
  {
    PlacementsAll(items);
  }

  /** Keys of a dict are distinct. */
  predicate DistinctKeys(items: seq<(string, Json)>)
  {
    forall i, j :: 0 <= i < j < |items| ==> items[i].0 != items[j].0
  }

  /** A plain key: no dot and no array marker. */
  predicate PlainKey(k: string)
  {
    '.' !in k && !Contains(k, Marker)
  }

  /** A plain key's node is stored under the key itself. */
  lemma PlainPlacement(items: seq<(string, Json)>, i: int)
    requires Converts(items) && 0 <= i < |items| && PlainKey(items[i].0)
    ensures SchemaPlacements(items).value[i] == ([items[i].0], ConvertValue(items[i].1).value)
  {
    PlacementAt(items, i);
    NestedNameSingle(items[i].0);
  }

  /** A plain key's node is found under the key in the result. */
  lemma TopLevelAt(items: seq<(string, Json)>, i: int)
    requires DistinctKeys(items) && Schema(items).Some? && 0 <= i < |items|
    requires forall j :: 0 <= j < |items| ==> PlainKey(items[j].0)
    ensures items[i].0 in Schema(items).value
    ensures Some(Schema(items).value[items[i].0]) == ConvertValue(items[i].1)
  {
    var k := items[i].0;
    NestedNameSingle(k);
    forall j | i < j < |items|
      ensures Unrelated(NestedName(k), NestedName(items[j].0))
    {
      NestedNameSingle(items[j].0);
      UnrelatedSingles(k, items[j].0);
    }
    SchemaPlaces(items, i);
    LookupSingle(Schema(items).value, k);
  }

  /** The result's keys are the first components of the paths. */
  lemma TopLevelKeys(items: seq<(string, Json)>)
    requires Schema(items).Some?
    requires forall i :: 0 <= i < |items| ==> PlainKey(items[i].0)
    ensures Schema(items).value.Keys == set i | 0 <= i < |items| :: items[i].0
  {
    var ps := SchemaPlacements(items).value;
    forall i | 0 <= i < |items|
      ensures ps[i].0[0] == items[i].0
    {
      PlainPlacement(items, i);
    }
    assert (set i | 0 <= i < |ps| :: ps[i].0[0]) == set i | 0 <= i < |items| :: items[i].0;
  }

  /** On the top level of the nested dict, whose keys hold no dot and no
      marker, the result maps each key to its converted node and nothing else. */
  lemma SchemaTopLevel(items: seq<(string, Json)>)
    requires DistinctKeys(items) && Schema(items).Some?
    requires forall i :: 0 <= i < |items| ==> PlainKey(items[i].0)
    ensures Schema(items).value.Keys == set i | 0 <= i < |items| :: items[i].0
    ensures forall i :: 0 <= i < |items| ==> Some(Schema(items).value[items[i].0]) == ConvertValue(items[i].1)
  {
    TopLevelKeys(items);
    forall i | 0 <= i < |items|
      ensures Some(Schema(items).value[items[i].0]) == ConvertValue(items[i].1)
    {
      TopLevelAt(items, i);
    }
  }
}
