/** The few Python string operations the core relies on: substring test,
    `startswith`/`endswith`, `split`, `replace(..., "")`, ASCII `lower`,
    `os.path.splitext` and the `<` ordering of `str`. */
module Strings {

  /** `sub in s` for Python strings: `sub` occurs at some position of `s`. */
  predicate Contains(s: string, sub: string)
    decreases |s|
  {
    sub <= s || (s != [] && Contains(s[1..], sub))
  }

  /** An occurrence of `sub` in `s`, stated by position. */
  ghost predicate OccursAt(s: string, sub: string, i: int)
  {
    0 <= i && i + |sub| <= |s| && s[i..i + |sub|] == sub
  }

  /** `Contains` finds an occurrence exactly when there is one. */
  lemma {:induction false} ContainsIff(s: string, sub: string)
    ensures Contains(s, sub) <==> exists i :: OccursAt(s, sub, i)
    decreases |s|
  {
    if sub <= s {
      assert OccursAt(s, sub, 0);
    } else if s == [] {
      assert forall i :: !OccursAt(s, sub, i);
    } else {
      ContainsIff(s[1..], sub);
      if Contains(s[1..], sub) {
        var i :| OccursAt(s[1..], sub, i);
        OccursShift(s, sub, i);
      } else {
        forall i | OccursAt(s, sub, i)
          ensures false
        {
          assert i != 0;
          OccursShift(s, sub, i - 1);
        }
      }
    }
  }

  /** An occurrence in the tail is an occurrence one place further on. */
  lemma OccursShift(s: string, sub: string, i: int)
    requires s != [] && 0 <= i
    ensures OccursAt(s[1..], sub, i) <==> OccursAt(s, sub, i + 1)
  {
    if i + |sub| <= |s| - 1 {
      assert s[1..][i..i + |sub|] == s[i + 1..i + 1 + |sub|];
    }
  }

  /** Whatever a string contains, any string around it contains. */
  lemma ContainsWithin(a: string, s: string, b: string, sub: string)
    requires Contains(s, sub)
    ensures Contains(a + s + b, sub)
  {
    ContainsIff(s, sub);
    ContainsIff(a + s + b, sub);
    var p :| OccursAt(s, sub, p);
    OccursConcat(a, s, sub, |a| + p);
    OccursConcat(a + s, b, sub, |a| + p);
  }

  /** An occurrence in `x + y` that lies wholly in one side is an
      occurrence in that side. */
  lemma OccursConcat(x: string, y: string, sub: string, p: int)
    requires 0 <= p
    ensures p + |sub| <= |x| ==> (OccursAt(x + y, sub, p) <==> OccursAt(x, sub, p))
    ensures p >= |x| ==> (OccursAt(x + y, sub, p) <==> OccursAt(y, sub, p - |x|))
  {
    if p + |sub| <= |x| {
      assert (x + y)[p..p + |sub|] == x[p..p + |sub|];
    }
    if p >= |x| && p + |sub| <= |x + y| {
      assert (x + y)[p..p + |sub|] == y[p - |x|..p - |x| + |sub|];
    }
  }

  /** `ContainsIff` for every entry of a list at once. */
  lemma ContainsIffAll(s: string, subs: seq<string>)
    ensures forall i :: 0 <= i < |subs| ==>
      (Contains(s, subs[i]) <==> exists p :: OccursAt(s, subs[i], p))
  {
    forall i | 0 <= i < |subs|
      ensures Contains(s, subs[i]) <==> exists p :: OccursAt(s, subs[i], p)
    {
      ContainsIff(s, subs[i]);
    }
  }

  /** A string cannot contain a substring holding a character it lacks. */
  lemma CharAbsent(s: string, sub: string, c: char)
    requires c in sub && c !in s
    ensures !Contains(s, sub)
  {
    ContainsIff(s, sub);
  }

  /** An occurrence of `sub` in `a + [c] + b`, where `c` is not in `sub`,
      lies wholly inside `a` or wholly inside `b`. */
  lemma SplitContains(a: string, c: char, b: string, sub: string)
    requires c !in sub && Contains(a + [c] + b, sub)
    ensures Contains(a, sub) || Contains(b, sub)
  {
    var s := a + [c] + b;
    ContainsIff(s, sub);
    ContainsIff(a, sub);
    ContainsIff(b, sub);
    var p :| OccursAt(s, sub, p);
    if p + |sub| <= |a| {
      OccursConcat(a + [c], b, sub, p);
      OccursConcat(a, [c], sub, p);
    } else if p > |a| {
      OccursConcat(a + [c], b, sub, p);
    } else {
      OccursAtIndex(s, sub, p, |a| - p);
      assert false;
    }
  }

  /** Hence a string absent from both sides of a character it lacks is
      absent from the whole. */
  lemma JoinAbsent(a: string, c: char, b: string, sub: string)
    requires c !in sub && !Contains(a, sub) && !Contains(b, sub)
    ensures !Contains(a + [c] + b, sub)
  {
    if Contains(a + [c] + b, sub) {
      SplitContains(a, c, b, sub);
    }
  }

  lemma OccursAtIndex(s: string, sub: string, p: int, j: int)
    requires OccursAt(s, sub, p) && 0 <= j < |sub|
    ensures p + j < |s| && s[p + j] == sub[j]
  {
    assert s[p..p + |sub|][j] == s[p + j];
  }

  predicate StartsWith(s: string, prefix: string)
  {
    prefix <= s
  }

  predicate EndsWith(s: string, suffix: string)
  {
    |suffix| <= |s| && s[|s| - |suffix|..] == suffix
  }

  /** `s.split(sep)`: the maximal runs between separators, empty runs kept. */
  function Split(s: string, sep: char): (parts: seq<string>)
    ensures |parts| >= 1
    ensures forall i :: 0 <= i < |parts| ==> sep !in parts[i]
  {
    if s == [] then [""]
    else if s[0] == sep then [""] + Split(s[1..], sep)
    else
      var rest := Split(s[1..], sep);
      [[s[0]] + rest[0]] + rest[1..]
  }

  /** `sep.join(parts)`. */
  function Join(parts: seq<string>, sep: char): (s: string)
    requires |parts| >= 1
  {
    if |parts| == 1 then parts[0] else parts[0] + [sep] + Join(parts[1..], sep)
  }

  /** Joining the pieces of a split with the same separator gives back the input. */
  lemma {:induction false} JoinSplit(s: string, sep: char)
    ensures Join(Split(s, sep), sep) == s
  {
    if s != [] {
      JoinSplit(s[1..], sep);
      if s[0] != sep {
        var rest := Split(s[1..], sep);
        if |rest| > 1 {
          assert Join(rest, sep) == rest[0] + [sep] + Join(rest[1..], sep);
        }
      }
    }
  }

  /** How a split begins, stated for a string built from its first character. */
  lemma SplitCons(c: char, t: string, sep: char)
    ensures Split([c] + t, sep) ==
      if c == sep then [""] + Split(t, sep)
      else [[c] + Split(t, sep)[0]] + Split(t, sep)[1..]
  {
    assert ([c] + t)[0] == c && ([c] + t)[1..] == t;
  }

  /** Splitting around one separator splits each side on its own. */
  lemma {:induction false} SplitConcat(a: string, sep: char, b: string)
    ensures Split(a + [sep] + b, sep) == Split(a, sep) + Split(b, sep)
  {
    if a == [] {
      assert a + [sep] + b == [sep] + b;
      SplitCons(sep, b, sep);
    } else {
      var c, tail := a[0], a[1..];
      var joined := tail + [sep] + b;
      assert a == [c] + tail;
      assert a + [sep] + b == [c] + joined;
      SplitConcat(tail, sep, b);
      SplitCons(c, joined, sep);
      SplitCons(c, tail, sep);
      if c == sep {
        ConsAssoc("", Split(tail, sep), Split(b, sep));
      } else {
        ReplaceHead([c], Split(tail, sep), Split(b, sep));
      }
    }
  }

  lemma ConsAssoc<T>(x: T, front: seq<T>, back: seq<T>)
    ensures [x] + (front + back) == ([x] + front) + back
  {
  }

  /** Extending the first piece commutes with appending more pieces. */
  lemma ReplaceHead(c: string, front: seq<string>, back: seq<string>)
    requires |front| >= 1
    ensures [c + (front + back)[0]] + (front + back)[1..] == ([c + front[0]] + front[1..]) + back
  {
    assert (front + back)[0] == front[0];
    assert (front + back)[1..] == front[1..] + back;
  }

  /** A string without the separator is a single piece. */
  lemma {:induction false} SplitNoSep(s: string, sep: char)
    requires sep !in s
    ensures Split(s, sep) == [s]
  {
    if s != [] {
      SplitNoSep(s[1..], sep);
      assert [s[0]] + s[1..] == s;
    }
  }

  /** Whatever a prefix contains, the whole string contains. */
  lemma {:induction false} ContainsPrefix(p: string, s: string, sub: string)
    requires p <= s && Contains(p, sub)
    ensures Contains(s, sub)
  {
    if !(sub <= p) {
      assert p[1..] <= s[1..];
      ContainsPrefix(p[1..], s[1..], sub);
    }
  }

  /** The first piece of a split is a prefix of the input. */
  lemma {:induction false} SplitFirstPrefix(s: string, sep: char)
    ensures Split(s, sep)[0] <= s
  {
    if s != [] && s[0] != sep {
      SplitFirstPrefix(s[1..], sep);
    }
  }

  /** Whatever a piece of a split contains, the input contains. */
  lemma {:induction false} SplitPartContains(s: string, sep: char, i: int, sub: string)
    requires 0 <= i < |Split(s, sep)| && Contains(Split(s, sep)[i], sub)
    ensures Contains(s, sub)
  {
    var parts := Split(s, sep);
    if s == [] || (s[0] == sep && i == 0) {
      assert sub == [];
    } else if s[0] == sep {
      SplitPartContains(s[1..], sep, i - 1, sub);
    } else if i == 0 {
      SplitFirstPrefix(s[1..], sep);
      assert parts[0] <= s;
      ContainsPrefix(parts[0], s, sub);
    } else {
      SplitPartContains(s[1..], sep, i, sub);
    }
  }

  /** A string ending with `suffix` contains it. */
  lemma EndsWithContains(s: string, suffix: string)
    requires EndsWith(s, suffix)
    ensures Contains(s, suffix)
  {
    ContainsIff(s, suffix);
    assert OccursAt(s, suffix, |s| - |suffix|);
  }

  /** Number of occurrences of the character `c` in `s`. */
  function CountChar(s: string, c: char): nat
  {
    if s == [] then 0 else (if s[0] == c then 1 else 0) + CountChar(s[1..], c)
  }

  /** A string splits into one more piece than it has separators. */
  lemma {:induction false} SplitLength(s: string, sep: char)
    ensures |Split(s, sep)| == CountChar(s, sep) + 1
  {
    if s != [] {
      SplitLength(s[1..], sep);
    }
  }

  /** The array marker of the dotted OMAS paths. */
  const Marker: string := "[:]"

  /** `s.replace("[:]", "")`: scans left to right and drops every
      non-overlapping occurrence of the marker. */
  function StripMarkers(s: string): (r: string)
    ensures |r| <= |s|
  {
    if s == [] then []
    else if Marker <= s then StripMarkers(s[3..])
    else [s[0]] + StripMarkers(s[1..])
  }

  /** Number of marker occurrences `replace` removes (Python's `str.count`). */
  function MarkerCount(s: string): nat
  {
    if s == [] then 0
    else if Marker <= s then 1 + MarkerCount(s[3..])
    else MarkerCount(s[1..])
  }

  /** Each removed occurrence shortens the string by exactly three characters. */
  lemma {:induction false} StripMarkersLength(s: string)
    ensures |StripMarkers(s)| + 3 * MarkerCount(s) == |s|
  {
    if s != [] {
      if Marker <= s {
        StripMarkersLength(s[3..]);
      } else {
        StripMarkersLength(s[1..]);
      }
    }
  }

  /** A string without the marker is left as it is. */
  lemma {:induction false} StripMarkersNoMarker(s: string)
    requires !Contains(s, Marker)
    ensures StripMarkers(s) == s
  {
    if s != [] {
      StripMarkersNoMarker(s[1..]);
    }
  }

  /** A marker appended to a marker-free string is the only one removed. */
  lemma {:induction false} StripMarkersTail(s: string)
    requires !Contains(s, Marker)
    ensures StripMarkers(s + Marker) == s
  {
    var t := s + Marker;
    if s == [] {
      assert t[3..] == [];
    } else {
      if |s| >= 3 {
        assert t[..3] == s[..3];
      } else {
        assert t[|s|] == '[';
      }
      assert !(Marker <= t);
      assert t[1..] == s[1..] + Marker;
      StripMarkersTail(s[1..]);
    }
  }

  /** Removing markers brings in no new character. */
  lemma {:induction false} StripMarkersKeepsOut(s: string, c: char)
    ensures c !in s ==> c !in StripMarkers(s)
  {
    if s != [] && c !in s {
      if Marker <= s {
        StripMarkersKeepsOut(s[3..], c);
      } else {
        StripMarkersKeepsOut(s[1..], c);
      }
    }
  }

  /** `replace` is a single pass: removing one marker can bring together
      another one, so the result may still contain the marker. */
  lemma StripMarkersSinglePass()
    ensures StripMarkers("[[:]:]") == Marker
  {
    assert "[[:]:]"[1] != Marker[1];
    assert !(Marker <= "[[:]:]");
    assert "[[:]:]"[1..] == "[:]:]";
    assert Marker <= "[:]:]";
    assert "[:]:]"[3..] == ":]";
    assert ":]"[1..] == "]";
  }

  function LowerChar(c: char): char
  {
    if 'A' <= c <= 'Z' then (c as int + 32) as char else c
  }

  /** `s.lower()`, for ASCII letters. */
  function Lower(s: string): (r: string)
    ensures |r| == |s|
    ensures forall i :: 0 <= i < |s| ==> r[i] == LowerChar(s[i])
  {
    seq(|s|, i requires 0 <= i < |s| => LowerChar(s[i]))
  }

  /** `lower()` leaves no capital letter, changes nothing else, and is
      idempotent. */
  lemma LowerLowercase(s: string)
    ensures forall i :: 0 <= i < |s| ==> !('A' <= Lower(s)[i] <= 'Z')
    ensures forall i :: 0 <= i < |s| && !('A' <= s[i] <= 'Z') ==> Lower(s)[i] == s[i]
    ensures Lower(Lower(s)) == Lower(s)
  {
  }

  /** Index of the last `c` in `s`, or -1 (`str.rfind`). */
  function LastIndexOf(s: string, c: char): (i: int)
    ensures -1 <= i < |s|
    ensures i >= 0 ==> s[i] == c
    ensures forall j :: i < j < |s| ==> s[j] != c
  {
    if s == [] then -1
    else if s[|s| - 1] == c then |s| - 1
    else LastIndexOf(s[..|s| - 1], c)
  }

  /** `os.path.splitext(p)[1][1:]` on POSIX: the text after the last dot,
      provided that dot lies in the last path component and is not one of
      the dots the component starts with; otherwise empty. */
  function Extension(p: string): (ext: string)
    ensures |ext| <= |p| && ext == p[|p| - |ext|..]
    ensures '.' !in ext && '/' !in ext
    ensures ext != [] ==> |ext| < |p| && p[|p| - |ext| - 1] == '.'
  {
    var sepIndex := LastIndexOf(p, '/');
    var dotIndex := LastIndexOf(p, '.');
    if dotIndex > sepIndex && NotAllDots(p, sepIndex, dotIndex) then
      var e := p[dotIndex + 1..];
      assert |p| - |e| - 1 == dotIndex;
      assert '.' !in e && '/' !in e by {
        forall j | 0 <= j < |e|
          ensures e[j] != '.' && e[j] != '/'
        {
          assert e[j] == p[dotIndex + 1 + j];
        }
      }
      e
    else
      []
  }

  /** Some character strictly between `lo` and `hi` is not a dot. */
  predicate NotAllDots(p: string, lo: int, hi: int)
    requires -1 <= lo && hi <= |p|
  {
    exists k :: lo < k < hi && p[k] != '.'
  }

  /** `NotAllDots` reads only the characters before `hi`. */
  lemma NotAllDotsPrefix(s: string, u: string, lo: int, hi: int)
    requires -1 <= lo && 0 <= hi <= |s| && hi <= |u| && s[..hi] == u[..hi]
    ensures NotAllDots(s, lo, hi) == NotAllDots(u, lo, hi)
  {
    if NotAllDots(s, lo, hi) {
      var k :| lo < k < hi && s[k] != '.';
      assert s[k] == s[..hi][k];
      assert u[k] == u[..hi][k];
    }
    if NotAllDots(u, lo, hi) {
      var k :| lo < k < hi && u[k] != '.';
      assert s[k] == s[..hi][k];
      assert u[k] == u[..hi][k];
    }
  }

  /** The last `c` of `s` is at `i` when `s[i]` is `c` and none follows. */
  lemma LastIndexOfAt(s: string, c: char, i: int)
    requires 0 <= i < |s| && s[i] == c && forall j :: i < j < |s| ==> s[j] != c
    ensures LastIndexOf(s, c) == i
  {
  }

  /** Appending text without `c` does not move the last `c`. */
  lemma LastIndexOfAppend(s: string, t: string, c: char)
    requires c !in t
    ensures LastIndexOf(s + t, c) == LastIndexOf(s, c)
  {
    assert (s + t)[..|s|] == s;
    if t != [] {
      assert (s + t)[|s + t| - 1] == t[|t| - 1];
      assert (s + t)[..|s + t| - 1] == s + t[..|t| - 1];
      LastIndexOfAppend(s, t[..|t| - 1], c);
    }
  }

  /** `splitext` of `stem + "." + e`, where `e` holds no dot and no slash:
      the extension is `e` exactly when the last path component of `stem`
      has a character other than a dot, and empty otherwise. */
  lemma ExtensionOf(stem: string, e: string)
    requires '.' !in e && '/' !in e
    ensures Extension(stem + ['.'] + e) ==
      if exists k :: LastIndexOf(stem, '/') < k < |stem| && stem[k] != '.' then e else []
  {
    var p := stem + ['.'] + e;
    var sep := LastIndexOf(stem, '/');
    SplitExtIndices(stem, e);
    assert p[|stem| + 1..] == e;
    assert Extension(p) == if NotAllDots(stem, sep, |stem|) then e else [];
  }

  /** Where the last dot and slash of `stem + "." + e` lie. */
  lemma SplitExtIndices(stem: string, e: string)
    requires '.' !in e && '/' !in e
    ensures LastIndexOf(stem + ['.'] + e, '.') == |stem|
    ensures LastIndexOf(stem + ['.'] + e, '/') == LastIndexOf(stem, '/')
    ensures NotAllDots(stem + ['.'] + e, LastIndexOf(stem, '/'), |stem|)
        == NotAllDots(stem, LastIndexOf(stem, '/'), |stem|)
  {
    var d := stem + ['.'];
    assert LastIndexOf(d + e, '.') == |stem| by {
      LastIndexOfAppend(d, e, '.');
    }
    assert LastIndexOf(d + e, '/') == LastIndexOf(stem, '/') by {
      assert d[..|stem|] == stem;
      LastIndexOfAppend(d, e, '/');
    }
    assert (d + e)[..|stem|] == stem;
    NotAllDotsPrefix(d + e, stem, LastIndexOf(stem, '/'), |stem|);
  }

  /** A name without any dot has no extension. */
  lemma ExtensionNoDot(p: string)
    requires '.' !in p
    ensures Extension(p) == []
  {
  }

  /** Python's `<` on `str`: lexicographic by code point. */
  predicate Less(a: string, b: string)
  {
    if a == [] then b != []
    else if b == [] then false
    else if a[0] != b[0] then a[0] < b[0]
    else Less(a[1..], b[1..])
  }

  /** `Less` is a strict order: never reflexive. */
  lemma {:induction false} LessIrreflexive(a: string)
    ensures !Less(a, a)
  {
    if a != [] {
      LessIrreflexive(a[1..]);
    }
  }

  /** `Less` is total on distinct strings. */
  lemma {:induction false} LessTotal(a: string, b: string)
    ensures a == b || Less(a, b) || Less(b, a)
  {
    if a != [] && b != [] && a[0] == b[0] {
      LessTotal(a[1..], b[1..]);
      if a[1..] == b[1..] {
        assert a == [a[0]] + a[1..] && b == [b[0]] + b[1..];
      }
    }
  }
}
