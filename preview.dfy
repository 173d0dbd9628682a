/** `select_preview_file`: the template filter that picks the file of a
    record to preview, among the record's files sorted by key. */
module Preview {
  import opened Json
  import opened Strings

  /** A file entry of a record: its `key` (the file name) and its `default`
      flag, each possibly missing. */
  datatype FileRecord = FileRecord(key: Option<string>, default: Option<bool>)

  predicate AllKeyed(files: seq<FileRecord>)
  {
    forall i :: 0 <= i < |files| ==> files[i].key.Some?
  }

  /** Whether the lower-cased extension of the file's key is previewable. */
  predicate Previewable(f: FileRecord, extensions: set<string>)
  {
    f.key.Some? && Lower(Extension(f.key.value)) in extensions
  }

  /** Ascending by key: no key is less than the one before it. */
  predicate SortedByKey(files: seq<FileRecord>)
    requires AllKeyed(files)
  {
    forall i :: 0 < i < |files| ==> !Less(files[i].key.value, files[i - 1].key.value)
  }

  /** In a sorted sequence each key either equals the one before it or
      follows it strictly, and never both: the files are in non-decreasing
      key order. */
  lemma SortedAdjacent(files: seq<FileRecord>, i: int)
    requires AllKeyed(files) && SortedByKey(files) && 0 < i < |files|
    ensures files[i - 1].key == files[i].key || Less(files[i - 1].key.value, files[i].key.value)
    ensures files[i - 1].key == files[i].key ==> !Less(files[i - 1].key.value, files[i].key.value)
  {
    LessTotal(files[i - 1].key.value, files[i].key.value);
    LessIrreflexive(files[i].key.value);
  }

  /** `Less` is asymmetric. */
  lemma {:induction false} LessAsymmetric(a: string, b: string)
    requires Less(a, b)
    ensures !Less(b, a)
  {
    if a != [] && a[0] == b[0] {
      LessAsymmetric(a[1..], b[1..]);
    }
  }

  /** Inserts `f` before the first file whose key is not less than its own,
      so that it stays ahead of the files with an equal key. */
  function Insert(f: FileRecord, files: seq<FileRecord>): (r: seq<FileRecord>)
    requires f.key.Some? && AllKeyed(files)
    ensures |r| == |files| + 1 && AllKeyed(r)
    ensures multiset(r) == multiset(files) + multiset{f}
  {
    if files == [] then [f]
    else if Less(files[0].key.value, f.key.value) then
      assert files == [files[0]] + files[1..];
      [files[0]] + Insert(f, files[1..])
    else
      [f] + files
  }

  /** Inserting into a sorted sequence keeps it sorted. */
  lemma {:induction false} InsertSorted(f: FileRecord, files: seq<FileRecord>)
    requires f.key.Some? && AllKeyed(files) && SortedByKey(files)
    ensures SortedByKey(Insert(f, files))
    ensures files != [] ==> Insert(f, files)[0] == f || Insert(f, files)[0] == files[0]
  {
    if files != [] && Less(files[0].key.value, f.key.value) {
      var rest := Insert(f, files[1..]);
      InsertSorted(f, files[1..]);
      if rest[0] == f {
        LessAsymmetric(files[0].key.value, f.key.value);
      }
      var r := [files[0]] + rest;
      assert forall i :: 1 < i < |r| ==> r[i] == rest[i - 1];
    }
  }

  /** `sorted(files, key=itemgetter("key"))`, as a stable insertion sort. */
  function SortByKey(files: seq<FileRecord>): (r: seq<FileRecord>)
    requires AllKeyed(files)
    ensures |r| == |files| && AllKeyed(r) && SortedByKey(r)
    ensures multiset(r) == multiset(files)
  {
    if files == [] then []
    else
      assert files == [files[0]] + files[1..];
      InsertSorted(files[0], SortByKey(files[1..]));
      Insert(files[0], SortByKey(files[1..]))
  }

  /** Which of the files have a previewable extension, position by position. */
  function PreviewFlags(s: seq<FileRecord>, extensions: set<string>): (flags: seq<bool>)
    ensures |flags| == |s|
  {
    if s == [] then [] else [Previewable(s[0], extensions)] + PreviewFlags(s[1..], extensions)
  }

  lemma {:induction false} PreviewFlagAt(s: seq<FileRecord>, extensions: set<string>, j: int)
    requires 0 <= j < |s|
    ensures PreviewFlags(s, extensions)[j] == Previewable(s[j], extensions)
  {
    if j > 0 {
      PreviewFlagAt(s[1..], extensions, j - 1);
    }
  }

  /** `first` is the position of the first previewable file. */
  ghost predicate IsFirst(flags: seq<bool>, first: int)
  {
    0 <= first < |flags| && flags[first] && forall j :: 0 <= j < first ==> !flags[j]
  }

  /** There is only one first previewable file. */
  lemma FirstUnique(flags: seq<bool>, a: int, b: int)
    requires IsFirst(flags, a) && IsFirst(flags, b)
    ensures a == b
  {
  }

  /** The scan reaches position `k` without raising: no previewable file
      between the first one and `k` lacks a `default`. */
  ghost predicate Reached(s: seq<FileRecord>, flags: seq<bool>, first: int, k: int)
    requires |flags| == |s|
  {
    forall j :: first < j < k && 0 <= j < |s| && flags[j] ==> s[j].default.Some?
  }

  /** Position `i` of the sorted files is the selected one: the first
      previewable file, or a later previewable file flagged `default` that
      the scan reaches; and no previewable file after it that the scan
      reaches is flagged `default`. */
  ghost predicate Chosen(s: seq<FileRecord>, flags: seq<bool>, i: int)
    requires |flags| == |s|
  {
    0 <= i < |s| && flags[i]
    && exists first :: (IsFirst(flags, first) && first <= i
      && (i > first ==> s[i].default == Some(true) && Reached(s, flags, first, i))
      && forall k :: i < k < |s| && flags[k] && Reached(s, flags, first, k) ==> s[k].default != Some(true))
  }

  /** `Chosen` picks at most one position. */
  lemma ChosenUnique(s: seq<FileRecord>, flags: seq<bool>, i: int, j: int)
    requires |flags| == |s| && Chosen(s, flags, i) && Chosen(s, flags, j)
    ensures i == j
  {
    var fi :| IsFirst(flags, fi) && fi <= i
      && (i > fi ==> s[i].default == Some(true) && Reached(s, flags, fi, i))
      && forall k :: i < k < |s| && flags[k] && Reached(s, flags, fi, k) ==> s[k].default != Some(true);
    var fj :| IsFirst(flags, fj) && fj <= j
      && (j > fj ==> s[j].default == Some(true) && Reached(s, flags, fj, j))
      && forall k :: j < k < |s| && flags[k] && Reached(s, flags, fj, k) ==> s[k].default != Some(true);
    FirstUnique(flags, fi, fj);
  }

  /** No file has a previewable extension. */
  predicate NonePreviewable(files: seq<FileRecord>, extensions: set<string>)
  {
    forall i :: 0 <= i < |files| ==> !Previewable(files[i], extensions)
  }

  /** `f` sits at a position of the sorted files that `Chosen` picks. */
  ghost predicate Selects(s: seq<FileRecord>, extensions: set<string>, f: FileRecord)
  {
    exists i :: 0 <= i < |s| && s[i] == f && Chosen(s, PreviewFlags(s, extensions), i)
  }

  /** `select_preview_file(files)` with the previewer's extensions as a
      parameter. Python's `None` for `files` is `None` here; a missing `key`
      makes `sorted` raise, which the filter turns into `None`. */
  method SelectPreviewFile(files: Option<seq<FileRecord>>, extensions: set<string>) returns (selected: Option<FileRecord>)
    ensures selected.None? <==>
      files.None? || !AllKeyed(files.value) || NonePreviewable(files.value, extensions)
    ensures selected.Some? ==> files.Some? && selected.value in files.value && Previewable(selected.value, extensions)
    ensures selected.Some? ==> AllKeyed(files.value) && Selects(SortByKey(files.value), extensions, selected.value)
  {
    var list := if files.Some? then files.value else [];
    if !AllKeyed(list) {
      return None;
    }
    var s := SortByKey(list);
    ghost var flags := PreviewFlags(s, extensions);
    selected := Scan(s, extensions, flags);
    SortedFlags(list, s, extensions);
    if selected.Some? {
      ghost var i :| 0 <= i < |s| && s[i] == selected.value && Chosen(s, flags, i);
      SortedMember(list, s, extensions, i);
      assert Selects(s, extensions, selected.value);
    }
  }

  /** Sorting does not change whether some file is previewable. */
  lemma SortedFlags(list: seq<FileRecord>, s: seq<FileRecord>, extensions: set<string>)
    requires multiset(s) == multiset(list)
    ensures (forall j :: 0 <= j < |s| ==> !PreviewFlags(s, extensions)[j])
        <==> NonePreviewable(list, extensions)
  {
    if exists j :: 0 <= j < |s| && PreviewFlags(s, extensions)[j] {
      var j :| 0 <= j < |s| && PreviewFlags(s, extensions)[j];
      SortedMember(list, s, extensions, j);
      var k :| 0 <= k < |list| && list[k] == s[j];
    }
    if exists j :: 0 <= j < |list| && Previewable(list[j], extensions) {
      var j :| 0 <= j < |list| && Previewable(list[j], extensions);
      assert list[j] in multiset(s);
      var k :| 0 <= k < |s| && s[k] == list[j];
      PreviewFlagAt(s, extensions, k);
    }
  }

  /** A flagged file of the sorted sequence is a previewable input file. */
  lemma SortedMember(list: seq<FileRecord>, s: seq<FileRecord>, extensions: set<string>, i: int)
    requires multiset(s) == multiset(list) && 0 <= i < |s| && PreviewFlags(s, extensions)[i]
    ensures s[i] in list && Previewable(s[i], extensions)
  {
    assert s[i] in multiset(list);
    PreviewFlagAt(s, extensions, i);
  }

  /** What the scan has established after visiting `s[..i]` without raising:
      nothing selected while no previewable file was seen; otherwise the
      first previewable file is at `first`, the selection at `sel`, and
      every previewable file after the selection has a false `default`. */
  ghost predicate ScanInv(s: seq<FileRecord>, flags: seq<bool>, i: int, selected: Option<FileRecord>, first: int, sel: int)
    requires |flags| == |s|
  {
    0 <= i <= |s|
    && (selected.None? ==> forall j :: 0 <= j < i ==> !flags[j])
    && (selected.Some? ==>
          0 <= first <= sel < i && IsFirst(flags, first) && flags[sel] && selected == Some(s[sel])
          && (sel > first ==> s[sel].default == Some(true))
          && Reached(s, flags, first, i)
          && forall k :: sel < k < i && flags[k] ==> s[k].default == Some(false))
  }

  /** A file that is not previewable is skipped. */
  lemma ScanSkip(s: seq<FileRecord>, flags: seq<bool>, i: int, selected: Option<FileRecord>, first: int, sel: int)
    requires |flags| == |s| && ScanInv(s, flags, i, selected, first, sel) && i < |s| && !flags[i]
    ensures ScanInv(s, flags, i + 1, selected, first, sel)
  {
  }

  /** The first previewable file is selected. */
  lemma ScanFirst(s: seq<FileRecord>, flags: seq<bool>, i: int)
    requires |flags| == |s| && ScanInv(s, flags, i, None, 0, 0) && i < |s| && flags[i]
    ensures ScanInv(s, flags, i + 1, Some(s[i]), i, i)
  {
  }

  /** A later previewable file replaces the selection when its `default`
      is true and leaves it otherwise. */
  lemma ScanLater(s: seq<FileRecord>, flags: seq<bool>, i: int, selected: Option<FileRecord>, first: int, sel: int)
    requires |flags| == |s| && ScanInv(s, flags, i, selected, first, sel) && i < |s| && flags[i]
    requires selected.Some? && s[i].default.Some?
    ensures s[i].default.value ==> ScanInv(s, flags, i + 1, Some(s[i]), first, i)
    ensures !s[i].default.value ==> ScanInv(s, flags, i + 1, selected, first, sel)
  {
  }

  /** The loop of `select_preview_file` over the sorted files. */
  method Scan(s: seq<FileRecord>, extensions: set<string>, ghost flags: seq<bool>) returns (selected: Option<FileRecord>)
    requires AllKeyed(s) && flags == PreviewFlags(s, extensions)
    ensures selected.None? <==> forall j :: 0 <= j < |s| ==> !flags[j]
    ensures selected.Some? ==> exists i :: 0 <= i < |s| && s[i] == selected.value && Chosen(s, flags, i)
  {
    selected := None;
    ghost var first, sel := 0, 0;
    ghost var stopped := false;
    var i := 0;
    while i < |s|
      invariant !stopped && ScanInv(s, flags, i, selected, first, sel)
    {
      var f := s[i];
      var fileType := Lower(Extension(f.key.value));
      PreviewFlagAt(s, extensions, i);
      if fileType in extensions {
        if selected.None? {
          ScanFirst(s, flags, i);
          selected := Some(f);
          first, sel := i, i;
        } else if f.default.None? {
          // `f["default"]` raises KeyError, which ends the scan.
          ScanChosen(s, flags, first, sel, i);
          stopped := true;
          break;
        } else {
          ScanLater(s, flags, i, selected, first, sel);
          if f.default.value {
            selected := Some(f);
            sel := i;
          }
        }
      } else {
        ScanSkip(s, flags, i, selected, first, sel);
      }
      i := i + 1;
    }
    if selected.None? {
      assert forall j :: 0 <= j < |s| ==> !flags[j];
    } else {
      assert flags[first];
      if !stopped {
        ScanChosen(s, flags, first, sel, |s|);
      }
    }
  }

  /** A scan that ends at `stop`, either at the end of the files or at a
      previewable file without `default`, has selected the chosen file. */
  lemma ScanChosen(s: seq<FileRecord>, flags: seq<bool>, first: int, sel: int, stop: int)
    requires |flags| == |s| && 0 <= sel < |s| && ScanInv(s, flags, stop, Some(s[sel]), first, sel)
    requires stop < |s| ==> stop > first && flags[stop] && s[stop].default.None?
    ensures Chosen(s, flags, sel)
  {
  }
}
