/** Key-path assignment into nested dictionaries, as the converter uses
    benedict for it: `d[path] = v` walks down the path, keeps an existing
    dictionary at each step, replaces anything else there by a fresh empty
    dictionary, and stores `v` under the last key. */
module Tree {
  import opened Json

  /** `t[path] = v` on the dictionary `t`. */
  function SetPath(t: map<string, Json>, path: seq<string>, v: Json): (r: map<string, Json>)
    requires path != []
    ensures r.Keys == t.Keys + {path[0]}
    ensures forall k :: k in t && k != path[0] ==> r[k] == t[k]
    decreases |path|
  {
    if |path| == 1 then t[path[0] := v]
    else
      var child := if path[0] in t && t[path[0]].Obj? then t[path[0]].fields else map[];
      t[path[0] := Obj(SetPath(child, path[1..], v))]
  }

  /** The value found by following `path` down from `j`, if every step is a
      key of a dictionary. */
  function Lookup(j: Json, path: seq<string>): Option<Json>
    decreases |path|
  {
    if path == [] then Some(j)
    else if j.Obj? && path[0] in j.fields then Lookup(j.fields[path[0]], path[1..])
    else None
  }

  /** Two key paths neither of which leads through the other. */
  predicate Unrelated(p: seq<string>, q: seq<string>)
  {
    !(p <= q) && !(q <= p)
  }

  /** A value stored at a path is found there. */
  lemma {:induction false} LookupSetPath(t: map<string, Json>, path: seq<string>, v: Json)
    requires path != []
    ensures Lookup(Obj(SetPath(t, path, v)), path) == Some(v)
    decreases |path|
  {
    if |path| > 1 {
      var child := if path[0] in t && t[path[0]].Obj? then t[path[0]].fields else map[];
      LookupSetPath(child, path[1..], v);
    }
  }

  /** Storing at one path leaves every unrelated path as it was. */
  lemma {:induction false} LookupSetPathOther(t: map<string, Json>, path: seq<string>, other: seq<string>, v: Json)
    requires path != [] && Unrelated(path, other)
    ensures Lookup(Obj(SetPath(t, path, v)), other) == Lookup(Obj(t), other)
    decreases |path|
  {
    if path[0] == other[0] {
      assert |path| > 1 && |other| > 1;
      assert Unrelated(path[1..], other[1..]) by {
        assert path == [path[0]] + path[1..];
        assert other == [other[0]] + other[1..];
      }
      var child := if path[0] in t && t[path[0]].Obj? then t[path[0]].fields else map[];
      LookupSetPathOther(child, path[1..], other[1..], v);
      assert Lookup(Obj(SetPath(t, path, v)), other) == Lookup(Obj(SetPath(child, path[1..], v)), other[1..]);
      if !(path[0] in t && t[path[0]].Obj?) {
        assert Lookup(Obj(map[]), other[1..]) == None;
      }
    }
  }

  /** Storing below a dictionary found at `p` stores into that dictionary
      the rest of the path: benedict merges rather than replaces. */
  lemma {:induction false} LookupSetPathBelow(t: map<string, Json>, path: seq<string>, p: seq<string>, v: Json, m: map<string, Json>)
    requires p < path
    requires Lookup(Obj(t), p) == Some(Obj(m))
    ensures Lookup(Obj(SetPath(t, path, v)), p) == Some(Obj(SetPath(m, path[|p|..], v)))
    decreases |p|
  {
    if p != [] {
      assert p[0] == path[0];
      var c := t[p[0]];
      assert Lookup(Obj(t), p) == Lookup(c, p[1..]);
      assert c.Obj?;
      assert Obj(c.fields) == c;
      assert path[1..][|p| - 1..] == path[|p|..];
      LookupSetPathBelow(c.fields, path[1..], p[1..], v, m);
      assert Lookup(Obj(SetPath(t, path, v)), p) == Lookup(Obj(SetPath(c.fields, path[1..], v)), p[1..]);
    }
  }

  /** A path of one key looks that key up. */
  lemma LookupSingle(m: map<string, Json>, k: string)
    ensures Lookup(Obj(m), [k]) == if k in m then Some(m[k]) else None
  {
    if k in m {
      assert Lookup(Obj(m), [k]) == Lookup(m[k], []);
    }
  }

  /** Paths of one key each are unrelated when the keys differ. */
  lemma UnrelatedSingles(a: string, b: string)
    requires a != b
    ensures Unrelated([a], [b])
  {
    assert [a][0] != [b][0];
  }

  /** The dictionary built by assigning each (path, value) pair in turn to
      an initially empty one. */
  function Build(placements: seq<(seq<string>, Json)>): (t: map<string, Json>)
    requires forall i :: 0 <= i < |placements| ==> placements[i].0 != []
    ensures t.Keys == set i | 0 <= i < |placements| :: placements[i].0[0]
  {
    if placements == [] then map[]
    else
      var n := |placements| - 1;
      var t := Build(placements[..n]);
      assert forall i :: 0 <= i < n ==> placements[..n][i] == placements[i];
      SetPath(t, placements[n].0, placements[n].1)
  }

  /** A value is found at its path in the built dictionary unless a later
      assignment goes through that path or stops on the way to it. */
  lemma {:induction false} BuildLookup(placements: seq<(seq<string>, Json)>, i: int)
    requires forall j :: 0 <= j < |placements| ==> placements[j].0 != []
    requires 0 <= i < |placements|
    requires forall j :: i < j < |placements| ==> Unrelated(placements[i].0, placements[j].0)
    ensures Lookup(Obj(Build(placements)), placements[i].0) == Some(placements[i].1)
  {
    var n := |placements| - 1;
    var prefix := placements[..n];
    if i == n {
      LookupSetPath(Build(prefix), placements[n].0, placements[n].1);
    } else {
      assert prefix[i] == placements[i];
      BuildLookup(prefix, i);
      LookupSetPathOther(Build(prefix), placements[n].0, placements[i].0, placements[n].1);
    }
  }

  /** Building from one more assignment performs that assignment last. */
  lemma BuildSnoc(placements: seq<(seq<string>, Json)>, last: (seq<string>, Json))
    requires forall i :: 0 <= i < |placements| ==> placements[i].0 != []
    requires last.0 != []
    ensures forall i :: 0 <= i < |placements + [last]| ==> (placements + [last])[i].0 != []
    ensures Build(placements + [last]) == SetPath(Build(placements), last.0, last.1)
  {
    assert (placements + [last])[..|placements|] == placements;
  }

  /** Building from a longer prefix performs the next assignment last. */
  lemma BuildPrefix(ps: seq<(seq<string>, Json)>, i: int)
    requires forall j :: 0 <= j < |ps| ==> ps[j].0 != []
    requires 0 <= i < |ps|
    ensures Build(ps[..i + 1]) == SetPath(Build(ps[..i]), ps[i].0, ps[i].1)
  {
    var q := ps[..i + 1];
    assert q[..i] == ps[..i];
    assert q[i] == ps[i];
  }

  /** The keys that assignments after the `i`-th add directly below its
      path. */
  function ChildKeys(ps: seq<(seq<string>, Json)>, i: int): (keys: set<string>)
    requires 0 <= i < |ps|
    ensures forall j :: i < j < |ps| && ps[i].0 < ps[j].0 ==> ps[j].0[|ps[i].0|] in keys
  {
    set j | i < j < |ps| && ps[i].0 < ps[j].0 :: ps[j].0[|ps[i].0|]
  }

  /** One more assignment adds at most its own next key. */
  lemma ChildKeysSnoc(ps: seq<(seq<string>, Json)>, i: int)
    requires 0 <= i < |ps| - 1
    ensures var n := |ps| - 1;
      ChildKeys(ps, i) == ChildKeys(ps[..n], i) + (if ps[i].0 < ps[n].0 then {ps[n].0[|ps[i].0|]} else {})
  {
    var n := |ps| - 1;
    var q := ps[..n];
    assert q[i] == ps[i];
    forall x | x in ChildKeys(ps, i)
      ensures x in ChildKeys(q, i) || (ps[i].0 < ps[n].0 && x == ps[n].0[|ps[i].0|])
    {
      var j :| i < j < |ps| && ps[i].0 < ps[j].0 && x == ps[j].0[|ps[i].0|];
      if j < n {
        assert q[j] == ps[j];
      }
    }
    forall x | x in ChildKeys(q, i)
      ensures x in ChildKeys(ps, i)
    {
      var j :| i < j < |q| && q[i].0 < q[j].0 && x == q[j].0[|q[i].0|];
      assert q[j] == ps[j];
    }
  }

  /** `r` is a dictionary with the keys of `base` and those `added`, and
      keeps the values of `base` under every key not added. */
  predicate Merged(r: Option<Json>, base: map<string, Json>, added: set<string>)
  {
    r.Some? && r.value.Obj? && r.value.fields.Keys == base.Keys + added
    && forall k :: k in base && k !in added ==> r.value.fields[k] == base[k]
  }

  /** A dictionary stored at a path, followed only by assignments that are
      unrelated to it or go below it, ends up holding its own entries plus
      one key for each assignment below it. */
  lemma {:induction false} BuildMerge(ps: seq<(seq<string>, Json)>, i: int)
    requires forall j :: 0 <= j < |ps| ==> ps[j].0 != []
    requires 0 <= i < |ps| && ps[i].1.Obj?
    requires forall j :: i < j < |ps| ==> Unrelated(ps[i].0, ps[j].0) || ps[i].0 < ps[j].0
    ensures Merged(Lookup(Obj(Build(ps)), ps[i].0), ps[i].1.fields, ChildKeys(ps, i))
  {
    var n := |ps| - 1;
    var q := ps[..n];
    var p := ps[i].0;
    var last := ps[n];
    var t := Build(q);
    assert Build(ps) == SetPath(t, last.0, last.1) by {
      BuildPrefix(ps, n);
      assert ps[..n + 1] == ps;
    }
    if i == n {
      LookupSetPath(t, p, ps[i].1);
      assert ChildKeys(ps, i) == {};
    } else {
      assert Merged(Lookup(Obj(t), p), ps[i].1.fields, ChildKeys(q, i)) by {
        assert q[i] == ps[i];
        forall j | i < j < |q|
          ensures Unrelated(q[i].0, q[j].0) || q[i].0 < q[j].0
        {
          assert q[j] == ps[j];
        }
        BuildMerge(q, i);
      }
      ChildKeysSnoc(ps, i);
      MergeStep(t, p, ps[i].1.fields, ChildKeys(q, i), last.0, last.1);
    }
  }

  /** One assignment unrelated to `p` or below it keeps the dictionary at
      `p` merged, adding at most its own next key. */
  lemma MergeStep(t: map<string, Json>, p: seq<string>, base: map<string, Json>, added: set<string>, path: seq<string>, v: Json)
    requires path != [] && (Unrelated(p, path) || p < path)
    requires Merged(Lookup(Obj(t), p), base, added)
    ensures Merged(Lookup(Obj(SetPath(t, path, v)), p), base, added + (if p < path then {path[|p|]} else {}))
  {
    var before := Lookup(Obj(t), p);
    var after := Lookup(Obj(SetPath(t, path, v)), p);
    if p < path {
      var m := before.value.fields;
      LookupSetPathBelow(t, path, p, v, m);
      assert after == Some(Obj(SetPath(m, path[|p|..], v)));
      MergeSet(m, base, added, path[|p|..], v);
      assert path[|p|..][0] == path[|p|];
    } else {
      LookupSetPathOther(t, path, p, v);
      assert after == before;
    }
  }

  /** Storing into a merged dictionary keeps it merged, with the first key
      of the path added. */
  lemma MergeSet(m: map<string, Json>, base: map<string, Json>, added: set<string>, rest: seq<string>, v: Json)
    requires rest != [] && Merged(Some(Obj(m)), base, added)
    ensures Merged(Some(Obj(SetPath(m, rest, v))), base, added + {rest[0]})
  {
  }
}
