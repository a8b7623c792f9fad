/** `SimplePDFMerger`: concatenates whole PDFs, in the order given, into one
    output file, and keeps a list of log lines. The input files and the
    output directory are maps from path to pages, as in `Merger`. */
module SimpleMerger {
  import Seqs
  import opened Merger

  // ---------------------------------------------------------------------
  // Python's string order, for `list.sort()` on paths

  /** `a <= b` for Python strings: code points compared left to right, a
      prefix before any longer string. */
  predicate StrLe(a: string, b: string)
    decreases |a|
  {
    |a| == 0 || (|b| != 0 && (a[0] < b[0] || (a[0] == b[0] && StrLe(a[1..], b[1..]))))
  }

  lemma {:induction false} StrLeTotal(a: string, b: string)
    ensures StrLe(a, b) || StrLe(b, a)
    decreases |a|
  {
    if |a| != 0 && |b| != 0 && a[0] == b[0] {
      StrLeTotal(a[1..], b[1..]);
    }
  }

  lemma {:induction false} StrLeTrans(a: string, b: string, c: string)
    requires StrLe(a, b) && StrLe(b, c)
    ensures StrLe(a, c)
    decreases |a|
  {
    if |a| != 0 && a[0] == b[0] && b[0] == c[0] {
      StrLeTrans(a[1..], b[1..], c[1..]);
    }
  }

  lemma {:induction false} StrLeAntisymmetric(a: string, b: string)
    requires StrLe(a, b) && StrLe(b, a)
    ensures a == b
    decreases |a|
  {
    if |a| != 0 {
      StrLeAntisymmetric(a[1..], b[1..]);
      assert a == [a[0]] + a[1..] && b == [b[0]] + b[1..];
    }
  }

  predicate SortedNames(r: seq<string>) {
    forall i, j | 0 <= i < j < |r| :: StrLe(r[i], r[j])
  }

  /** Puts `x` in front of the first name it is not after. */
  function InsertName(x: string, r: seq<string>): (t: seq<string>)
    ensures multiset(t) == multiset(r) + multiset{x}
    ensures |t| == |r| + 1
  {
    if |r| == 0 || StrLe(x, r[0]) then [x] + r
    else
      assert r == [r[0]] + r[1..];
      [r[0]] + InsertName(x, r[1..])
  }

  /** `names.sort()`. */
  function SortNames(names: seq<string>): (r: seq<string>)
    ensures multiset(r) == multiset(names)
  {
    if |names| == 0 then []
    else
      assert names == [names[0]] + names[1..];
      InsertName(names[0], SortNames(names[1..]))
  }

  lemma {:induction false} InsertNameSorted(x: string, r: seq<string>)
    requires SortedNames(r)
    ensures SortedNames(InsertName(x, r))
    decreases |r|
  {
    if |r| == 0 || StrLe(x, r[0]) {
      InsertInFront(x, r);
    } else {
      StrLeTotal(x, r[0]);
      SortedTail(r);
      InsertNameSorted(x, r[1..]);
      InsertPast(x, r, InsertName(x, r[1..]));
    }
  }

  lemma SortedTail(r: seq<string>)
    requires SortedNames(r) && |r| != 0
    ensures SortedNames(r[1..])
  {
    assert forall i, j | 0 <= i < j < |r[1..]| :: r[1..][i] == r[i + 1] && r[1..][j] == r[j + 1];
  }

  /** A name not after the first of a sorted list goes in front of it. */
  lemma InsertInFront(x: string, r: seq<string>)
    requires SortedNames(r) && (|r| == 0 || StrLe(x, r[0]))
    ensures SortedNames([x] + r)
  {
    var t := [x] + r;
    forall j | 0 <= j < |r| ensures StrLe(x, r[j]) {
      if j > 0 {
        StrLeTrans(x, r[0], r[j]);
      }
    }
    assert forall j | 1 <= j < |t| :: t[j] == r[j - 1];
  }

  /** A name after the first of a sorted list goes in the rest of it. */
  lemma InsertPast(x: string, r: seq<string>, rest: seq<string>)
    requires SortedNames(r) && |r| != 0 && StrLe(r[0], x)
    requires SortedNames(rest) && multiset(rest) == multiset(r[1..]) + multiset{x}
    ensures SortedNames([r[0]] + rest)
  {
    var t := [r[0]] + rest;
    forall y | y in multiset(rest) ensures StrLe(r[0], y) {
      if y in r[1..] {
        var j :| 0 <= j < |r[1..]| && r[1..][j] == y;
        assert r[j + 1] == y;
      }
    }
    forall j | 0 <= j < |rest| ensures StrLe(r[0], rest[j]) {
      assert rest[j] in multiset(rest);
    }
    assert forall j | 1 <= j < |t| :: t[j] == rest[j - 1];
  }

  /** The sort puts the names in ascending order. */
  lemma {:induction false} SortNamesSorted(names: seq<string>)
    ensures SortedNames(SortNames(names))
    decreases |names|
  {
    if |names| != 0 {
      SortNamesSorted(names[1..]);
      InsertNameSorted(names[0], SortNames(names[1..]));
    }
  }

  /** Two sorted lists of the same names start with the same name. */
  lemma SameFirst(a: seq<string>, b: seq<string>)
    requires SortedNames(a) && SortedNames(b) && multiset(a) == multiset(b) && |a| != 0
    ensures |b| != 0 && a[0] == b[0]
  {
    assert a[0] in multiset(b) && b[0] in multiset(a);
    var i :| 0 <= i < |b| && b[i] == a[0];
    var j :| 0 <= j < |a| && a[j] == b[0];
    if i > 0 && j > 0 {
      assert StrLe(b[0], b[i]) && StrLe(a[0], a[j]);
      StrLeAntisymmetric(a[0], b[0]);
    }
  }

  /** There is only one ascending order of a collection of names. */
  lemma {:induction false} SortedUnique(a: seq<string>, b: seq<string>)
    requires SortedNames(a) && SortedNames(b) && multiset(a) == multiset(b)
    ensures a == b
    decreases |a|
  {
    if |a| == 0 {
      assert |b| == |multiset(b)| == 0;
    } else {
      SameFirst(a, b);
      assert a == [a[0]] + a[1..] && b == [b[0]] + b[1..];
      assert multiset(a[1..]) == multiset(a) - multiset{a[0]};
      assert multiset(b[1..]) == multiset(b) - multiset{b[0]};
      SortedTail(a);
      SortedTail(b);
      SortedUnique(a[1..], b[1..]);
    }
  }

  // ---------------------------------------------------------------------
  // merge_files

  /** What the merger writes into its log. */
  datatype LogLine =
    | FileError(path: string)
    | Merged(fileCount: nat)
    | OutputFile(name: string)
    | TotalPages(pages: nat)
    | MergeFailed

  function Exists(files: Files): string -> bool {
    (p: string) => p in files
  }

  /** The pages of the files of `paths` that read, in order. */
  function ReadablePages(files: Files, paths: seq<string>): seq<PageId> {
    if |paths| == 0 then []
    else
      var p := paths[|paths| - 1];
      ReadablePages(files, paths[..|paths| - 1]) + (if Readable(files, p) then files[p].pages else [])
  }

  /** One error line per existing file that does not read, in order. */
  function ReadErrors(files: Files, paths: seq<string>): seq<LogLine> {
    if |paths| == 0 then []
    else
      var p := paths[|paths| - 1];
      ReadErrors(files, paths[..|paths| - 1]) + (if Readable(files, p) then [] else [FileError(p)])
  }

  lemma {:induction false} ReadablePagesAppend(files: Files, a: seq<string>, b: seq<string>)
    ensures ReadablePages(files, a + b) == ReadablePages(files, a) + ReadablePages(files, b)
    decreases |b|
  {
    if |b| == 0 {
      assert a + b == a;
    } else {
      var init := b[..|b| - 1];
      assert (a + b)[..|a + b| - 1] == a + init;
      ReadablePagesAppend(files, a, init);
    }
  }

  /** A single file contributes all its pages if it reads, none otherwise. */
  lemma ReadablePagesSingle(files: Files, p: string)
    ensures ReadablePages(files, [p]) == if Readable(files, p) then files[p].pages else []
  {
    assert [p][..0] == [];
  }

  /** Leaving out the files that do not exist changes nothing in the pages. */
  lemma {:induction false} MissingFilesAddNothing(files: Files, paths: seq<string>)
    ensures ReadablePages(files, Seqs.Filter(paths, Exists(files))) == ReadablePages(files, paths)
    decreases |paths|
  {
    if |paths| != 0 {
      var init, p := paths[..|paths| - 1], paths[|paths| - 1];
      MissingFilesAddNothing(files, init);
      assert Seqs.Filter(paths, Exists(files))
             == Seqs.Filter(init, Exists(files)) + (if p in files then [p] else []);
      ReadablePagesAppend(files, Seqs.Filter(init, Exists(files)), if p in files then [p] else []);
      if p in files {
        ReadablePagesSingle(files, p);
      } else {
        assert Seqs.Filter(init, Exists(files)) + [] == Seqs.Filter(init, Exists(files));
      }
    }
  }

  /** When every file reads, the merge is their pages end to end and
      logs no error. */
  lemma {:induction false} AllReadable(files: Files, paths: seq<string>)
    requires forall i | 0 <= i < |paths| :: Readable(files, paths[i])
    ensures ReadErrors(files, paths) == []
    ensures |ReadablePages(files, paths)| == PageTotal(files, paths)
    decreases |paths|
  {
    if |paths| != 0 {
      var init := paths[..|paths| - 1];
      assert forall i | 0 <= i < |init| :: init[i] == paths[i];
      AllReadable(files, init);
    }
  }

  /** The sum of the page counts of `paths`, all of which read. */
  function PageTotal(files: Files, paths: seq<string>): nat
    requires forall i | 0 <= i < |paths| :: Readable(files, paths[i])
  {
    if |paths| == 0 then 0
    else
      var init := paths[..|paths| - 1];
      assert forall i | 0 <= i < |init| :: init[i] == paths[i];
      var p := paths[|paths| - 1];
      assert Readable(files, p);
      PageTotal(files, init) + |files[p].pages|
  }

  /** The lines `merge_files` adds to the log for `paths`. */
  function MergeLog(files: Files, paths: seq<string>, outputName: string, writable: bool): seq<LogLine> {
    var valid := Seqs.Filter(paths, Exists(files));
    var pages := ReadablePages(files, valid);
    if |paths| == 0 || |valid| == 0 then []
    else if |pages| == 0 then ReadErrors(files, valid)
    else if !writable then ReadErrors(files, valid) + [MergeFailed]
    else ReadErrors(files, valid) + [Merged(|valid|), OutputFile(outputName), TotalPages(|pages|)]
  }

  /** Whether `merge_files` writes its output: some listed file exists and
      the readable ones have pages. */
  predicate MergeWrites(files: Files, paths: seq<string>, writable: bool) {
    && Seqs.Filter(paths, Exists(files)) != []
    && ReadablePages(files, Seqs.Filter(paths, Exists(files))) != []
    && writable
  }

  /** Writing needs a listed file that exists and reads and has a page. */
  lemma WriteNeedsAPage(files: Files, paths: seq<string>, writable: bool)
    requires MergeWrites(files, paths, writable)
    ensures exists i | 0 <= i < |paths| :: Readable(files, paths[i]) && files[paths[i]].pages != []
  {
    MissingFilesAddNothing(files, paths);
    SomePage(files, paths);
  }

  lemma {:induction false} SomePage(files: Files, paths: seq<string>)
    requires ReadablePages(files, paths) != []
    ensures exists i | 0 <= i < |paths| :: Readable(files, paths[i]) && files[paths[i]].pages != []
    decreases |paths|
  {
    var init, p := paths[..|paths| - 1], paths[|paths| - 1];
    if Readable(files, p) && files[p].pages != [] {
      assert paths[|paths| - 1] == p;
    } else {
      SomePage(files, init);
      var i :| 0 <= i < |init| && Readable(files, init[i]) && files[init[i]].pages != [];
      assert paths[i] == init[i];
    }
  }

  class SimplePdfMerger {
    var mergeLog: seq<LogLine>
    /** The output directory: file name to pages. */
    var outputs: map<string, seq<PageId>>
    /** Whether files can be written into the output directory. */
    const writable: bool

    /** The output directory is created when missing and kept as it is
        otherwise: `existing` is what it already holds. */
    constructor (writable: bool, existing: map<string, seq<PageId>>)
      ensures mergeLog == [] && outputs == existing && this.writable == writable
    {
      mergeLog := [];
      outputs := existing;
      this.writable := writable;
    }

    /** `merge_files`: fails on an empty list, on a list of which no file
        exists, and when the readable files have no page; otherwise writes
        the readable files' pages, in list order, to `outputName`. */
    method MergeFiles(files: Files, paths: seq<string>, outputName: string) returns (ok: bool)
      modifies this
      ensures ok <==> MergeWrites(files, paths, writable)
      ensures outputs == if ok then old(outputs)[outputName := ReadablePages(files, Seqs.Filter(paths, Exists(files)))]
                         else old(outputs)
      ensures mergeLog == old(mergeLog) + MergeLog(files, paths, outputName, writable)
    {
      if |paths| == 0 {
        assert Seqs.Filter(paths, Exists(files)) == [];
        return false;
      }
      var valid := ExistingFiles(files, paths);
      if |valid| == 0 {
        return false;
      }
      var pages, total := ReadAll(files, valid);
      if total == 0 {
        return false;
      }
      if !writable {
        mergeLog := mergeLog + [MergeFailed];
        return false;
      }
      outputs := outputs[outputName := pages];
      mergeLog := mergeLog + [Merged(|valid|), OutputFile(outputName), TotalPages(total)];
      return true;
    }

    /** The loop over the files: appends the pages of each file that reads
        and logs an error for each that does not. */
    method ReadAll(files: Files, valid: seq<string>) returns (pages: seq<PageId>, total: nat)
      modifies this
      ensures pages == ReadablePages(files, valid) && total == |pages|
      ensures mergeLog == old(mergeLog) + ReadErrors(files, valid)
      ensures outputs == old(outputs)
    {
      pages, total := [], 0;
      for i := 0 to |valid|
        invariant pages == ReadablePages(files, valid[..i]) && total == |pages|
        invariant mergeLog == old(mergeLog) + ReadErrors(files, valid[..i])
        invariant outputs == old(outputs)
      {
        var p := valid[i];
        assert valid[..i + 1][..i] == valid[..i];
        if Readable(files, p) {
          pages := pages + files[p].pages;
          total := total + |files[p].pages|;
        } else {
          mergeLog := mergeLog + [FileError(p)];
        }
      }
      assert valid[..|valid|] == valid;
    }

    /** `merge_directory`: fails when the path is not a directory or holds
        no matching file; otherwise merges the matches in name order.
        `matched` is what the glob finds, in any order. */
    method MergeDirectory(files: Files, isDirectory: bool, matched: seq<string>, outputName: string)
      returns (ok: bool)
      modifies this
      ensures ok <==> isDirectory && matched != [] && MergeWrites(files, SortNames(matched), writable)
      ensures !isDirectory || matched == [] ==> mergeLog == old(mergeLog) && outputs == old(outputs)
      ensures isDirectory && matched != [] ==>
              && mergeLog == old(mergeLog) + MergeLog(files, SortNames(matched), outputName, writable)
              && outputs == if ok then old(outputs)[outputName := ReadablePages(files, Seqs.Filter(SortNames(matched), Exists(files)))]
                            else old(outputs)
    {
      if !isDirectory || |matched| == 0 {
        return false;
      }
      var sorted := SortNames(matched);
      ok := MergeFiles(files, sorted, outputName);
    }

    /** `get_merge_log`: a copy of the log. */
    method GetMergeLog() returns (log: seq<LogLine>)
      ensures log == mergeLog
    {
      log := mergeLog;
    }

    /** `clear_log`: empties the log and nothing else. */
    method ClearLog()
      modifies this
      ensures mergeLog == [] && outputs == old(outputs)
    {
      mergeLog := [];
    }
  }

  /** The loop collecting the listed files that exist, in list order. */
  method ExistingFiles(files: Files, paths: seq<string>) returns (valid: seq<string>)
    ensures valid == Seqs.Filter(paths, Exists(files))
  {
    valid := [];
    for i := 0 to |paths|
      invariant valid == Seqs.Filter(paths[..i], Exists(files))
    {
      Seqs.FilterPrefixStep(paths, i, Exists(files));
      if paths[i] in files {
        valid := valid + [paths[i]];
      }
    }
    assert paths[..|paths|] == paths;
  }

  /** Merging a directory uses the same order whatever order the glob
      finds the files in. */
  lemma DirectoryOrderIrrelevant(a: seq<string>, b: seq<string>)
    requires multiset(a) == multiset(b)
    ensures SortNames(a) == SortNames(b)
  {
    SortNamesSorted(a);
    SortNamesSorted(b);
    SortedUnique(SortNames(a), SortNames(b));
  }
}
