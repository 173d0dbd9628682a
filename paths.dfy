/** The two ways the converter turns a flat, dotted OMAS name into a key path:
    the benedict key path of `to_benedict`, where the array markers are
    simply erased, and the JSON-Schema path of `dotted_name_to_nested_name`,
    where an array segment descends into the schema's `items`. */
module Paths {
  import opened Strings

  /** Key path under which `to_benedict` stores the entry named `k`: the
      name with its markers removed, split at the dots. */
  function KeyPath(k: string): (path: seq<string>)
    ensures |path| == CountChar(StripMarkers(k), '.') + 1
    ensures Join(path, '.') == StripMarkers(k)
  {
    SplitLength(StripMarkers(k), '.');
    JoinSplit(StripMarkers(k), '.');
    Split(StripMarkers(k), '.')
  }

  /** Whether a dotted segment names an array. */
  predicate IsArraySegment(part: string)
  {
    EndsWith(part, Marker)
  }

  /** Components emitted for one dotted segment. */
  function Components(part: string): seq<string>
  {
    if IsArraySegment(part) then [StripMarkers(part), "items"] else [part]
  }

  /** The components of a sequence of segments, in order. */
  function NestParts(parts: seq<string>): (path: seq<string>)
    ensures |path| >= |parts|
    ensures (forall i :: 0 <= i < |parts| ==> '.' !in parts[i]) ==>
      forall j :: 0 <= j < |path| ==> '.' !in path[j]
  {
    if parts == [] then []
    else
      var head, rest := Components(parts[0]), NestParts(parts[1..]);
      StripMarkersKeepsOut(parts[0], '.');
      assert forall i :: 0 <= i < |parts| - 1 ==> parts[1..][i] == parts[i + 1];
      assert forall j :: |head| <= j < |head + rest| ==> (head + rest)[j] == rest[j - |head|];
      head + rest
  }

  /** `dotted_name_to_nested_name`: at least one component per dotted
      segment, and no component holds a dot. */
  function NestedName(dotted: string): (path: seq<string>)
    ensures |path| >= CountChar(dotted, '.') + 1
    ensures forall j :: 0 <= j < |path| ==> '.' !in path[j]
  {
    SplitLength(dotted, '.');
    NestParts(Split(dotted, '.'))
  }

  /** Number of array segments among `parts`. */
  function ArraySegments(parts: seq<string>): nat
  {
    if parts == [] then 0 else (if IsArraySegment(parts[0]) then 1 else 0) + ArraySegments(parts[1..])
  }

  /** Each segment gives one component, and each array segment one more. */
  lemma {:induction false} NestPartsLength(parts: seq<string>)
    ensures |NestParts(parts)| == |parts| + ArraySegments(parts)
  {
    if parts != [] {
      NestPartsLength(parts[1..]);
    }
  }

  /** The length of a nested name: the dotted segments plus the array segments. */
  lemma NestedNameLength(dotted: string)
    ensures |NestedName(dotted)| == CountChar(dotted, '.') + 1 + ArraySegments(Split(dotted, '.'))
  {
    NestPartsLength(Split(dotted, '.'));
    SplitLength(dotted, '.');
  }

  /** Segments are converted independently of each other. */
  lemma {:induction false} NestPartsConcat(a: seq<string>, b: seq<string>)
    ensures NestParts(a + b) == NestParts(a) + NestParts(b)
  {
    if a != [] {
      assert (a + b)[0] == a[0];
      assert (a + b)[1..] == a[1..] + b;
      NestPartsConcat(a[1..], b);
      assert NestParts(a + b) == Components(a[0]) + NestParts(a[1..] + b);
    } else {
      assert a + b == b;
    }
  }

  /** The nested name of `a.b` is that of `a` followed by that of `b`. */
  lemma NestedNameConcat(a: string, b: string)
    ensures NestedName(a + "." + b) == NestedName(a) + NestedName(b)
  {
    assert a + "." + b == a + ['.'] + b;
    SplitConcat(a, '.', b);
    NestPartsConcat(Split(a, '.'), Split(b, '.'));
  }

  /** Segments none of which is an array segment are kept as they are. */
  lemma {:induction false} NestPartsPlain(parts: seq<string>)
    requires forall i :: 0 <= i < |parts| ==> !IsArraySegment(parts[i])
    ensures NestParts(parts) == parts
  {
    if parts != [] {
      NestPartsPlain(parts[1..]);
    }
  }

  /** A name without any array marker maps to its plain split. */
  lemma NestedNamePlain(dotted: string)
    requires !Contains(dotted, Marker)
    ensures NestedName(dotted) == Split(dotted, '.')
  {
    var parts := Split(dotted, '.');
    forall i | 0 <= i < |parts|
      ensures !IsArraySegment(parts[i])
    {
      if IsArraySegment(parts[i]) {
        EndsWithContains(parts[i], Marker);
        SplitPartContains(dotted, '.', i, Marker);
      }
    }
    NestPartsPlain(parts);
  }

  /** A name with no dot and no marker is a path of one component. */
  lemma NestedNameSingle(k: string)
    requires '.' !in k && !Contains(k, Marker)
    ensures NestedName(k) == [k]
  {
    SplitNoSep(k, '.');
    NestedNamePlain(k);
  }

  /** An array segment becomes its marker-free name followed by `items`. */
  lemma NestedNameArray(name: string)
    requires '.' !in name && !Contains(name, Marker)
    ensures NestedName(name + Marker) == [name, "items"]
  {
    var d := name + Marker;
    assert '.' !in d;
    SplitNoSep(d, '.');
    assert IsArraySegment(d);
    StripMarkersTail(name);
    assert NestParts([d]) == Components(d) + NestParts([]);
  }
}
