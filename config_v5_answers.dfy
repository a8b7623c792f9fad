/** Two answers `ConfigManagerV5.get_user_input` reads at the prompt, taken
    as text: which zip files to unpack, and the order in which the
    categories are merged. */
module ConfigV5Answers {
  import opened Strings
  import opened Paths

  // ---------------------------------------------------------------------
  // Python lists of indices

  /** Python's `range(a, b)`. */
  function Range(a: int, b: int): (r: seq<int>)
    ensures |r| == if a < b then b - a else 0
    ensures forall k | 0 <= k < |r| :: r[k] == a + k
    decreases b - a
  {
    if a >= b then [] else [a] + Range(a + 1, b)
  }

  predicate Increasing(xs: seq<int>) {
    forall j, k | 0 <= j < k < |xs| :: xs[j] < xs[k]
  }

  /** Adds `x` to an increasing list, which stays increasing. */
  function Insert(x: int, r: seq<int>): (r': seq<int>)
    requires Increasing(r)
    ensures Increasing(r') && forall y :: y in r' <==> y == x || y in r
  {
    if r == [] then [x]
    else if x == r[0] then r
    else if x < r[0] then [x] + r
    else
      var t := Insert(x, r[1..]);
      assert forall k | 0 <= k < |t| :: r[0] < t[k] by {
        forall k | 0 <= k < |t| ensures r[0] < t[k] {
          assert t[k] in t;
          if t[k] != x {
            var i :| 0 <= i < |r[1..]| && r[1..][i] == t[k];
            assert r[i + 1] == t[k];
          }
        }
      }
      [r[0]] + t
  }

  /** `sorted(set(xs))` */
  function SortedSet(xs: seq<int>): (r: seq<int>)
    ensures Increasing(r) && forall y :: y in r <==> y in xs
  {
    if xs == [] then []
    else
      var init := xs[..|xs| - 1];
      assert xs == init + [xs[|xs| - 1]];
      Insert(xs[|xs| - 1], SortedSet(init))
  }

  /** An increasing list is determined by its elements. */
  lemma {:induction false} IncreasingUnique(a: seq<int>, b: seq<int>)
    requires Increasing(a) && Increasing(b) && forall y :: y in a <==> y in b
    ensures a == b
    decreases |a|
  {
    SameMembersEmpty(a, b);
    if a != [] {
      assert a[0] == b[0] by {
        assert a[0] in a && b[0] in b;
        var i :| 0 <= i < |b| && b[i] == a[0];
        var j :| 0 <= j < |a| && a[j] == b[0];
        assert b[0] <= b[i] && a[0] <= a[j];
      }
      forall y ensures y in a[1..] <==> y in b[1..] {
        if y in a[1..] { assert y in a && y != a[0]; }
        if y in b[1..] { assert y in b && y != b[0]; }
        if y in a && y != a[0] { assert y in a[1..]; }
        if y in b && y != b[0] { assert y in b[1..]; }
      }
      IncreasingUnique(a[1..], b[1..]);
      assert a == [a[0]] + a[1..] && b == [b[0]] + b[1..];
    }
  }

  lemma SameMembersEmpty(a: seq<int>, b: seq<int>)
    requires forall y :: y in a <==> y in b
    ensures a == [] <==> b == []
  {
    if a != [] {
      var y := a[0];
      assert y in a;
      assert y in b;
    }
    if b != [] {
      var y := b[0];
      assert y in b;
      assert y in a;
    }
  }

  /** Python's `xs[i]` on a list of length `n`, negative indices counting
      from the end. */
  predicate PyIndexOk(n: nat, i: int) {
    -(n as int) <= i < n
  }

  function PyIndex(n: nat, i: int): (k: nat)
    requires PyIndexOk(n, i)
    ensures k < n && (k == i || k == i + n)
  {
    if i < 0 then i + n else i
  }

  /** `zip_files[idx]` for each index in turn; an index out of range raises
      `IndexError`, modelled as `None`. */
  function Pick(zipFiles: seq<string>, idxs: seq<int>): (r: Option<seq<string>>)
    ensures r.Some? <==> forall k | 0 <= k < |idxs| :: PyIndexOk(|zipFiles|, idxs[k])
    ensures r.Some? ==>
              (|r.value| == |idxs|
               && forall k | 0 <= k < |idxs| :: r.value[k] == zipFiles[PyIndex(|zipFiles|, idxs[k])])
  {
    if idxs == [] then Some([])
    else
      var n := |idxs| - 1;
      var rest := Pick(zipFiles, idxs[..n]);
      if rest.None? || !PyIndexOk(|zipFiles|, idxs[n]) then
        assert rest.None? ==> exists k | 0 <= k < n :: !PyIndexOk(|zipFiles|, idxs[..n][k]);
        None
      else Some(rest.value + [zipFiles[PyIndex(|zipFiles|, idxs[n])]])
  }

  // ---------------------------------------------------------------------
  // Choosing the zip files to unpack

  /** The zip files whose name contains `part`, ignoring case, in order. */
  function NameMatches(zipFiles: seq<string>, part: string): (r: seq<string>)
    ensures forall f :: f in r <==> f in zipFiles && Contains(LowerStr(Name(f)), LowerStr(part))
  {
    if zipFiles == [] then []
    else
      var n := |zipFiles| - 1;
      assert zipFiles == zipFiles[..n] + [zipFiles[n]];
      var rest := NameMatches(zipFiles[..n], part);
      if Contains(LowerStr(Name(zipFiles[n])), LowerStr(part)) then rest + [zipFiles[n]] else rest
  }

  /** Appends each of `fs` that `sel` does not yet hold. */
  function AddNew(sel: seq<string>, fs: seq<string>): (r: seq<string>)
    ensures |sel| <= |r| && r[..|sel|] == sel
    ensures forall f :: f in r <==> f in sel || f in fs
  {
    if fs == [] then sel
    else
      var n := |fs| - 1;
      assert fs == fs[..n] + [fs[n]];
      var s := AddNew(sel, fs[..n]);
      if fs[n] in s then s else s + [fs[n]]
  }

  /** Keeps the entries of `xs` that index a list of length `n` from the
      front. */
  function InRange(xs: seq<int>, n: nat): (r: seq<int>)
    ensures forall y :: y in r <==> y in xs && 0 <= y < n
  {
    if xs == [] then []
    else
      var m := |xs| - 1;
      assert xs == xs[..m] + [xs[m]];
      var rest := InRange(xs[..m], n);
      if 0 <= xs[m] < n then rest + [xs[m]] else rest
  }

  /** What the comma-separated parts have chosen so far: `selected_indices`
      and the files already appended to `selected_zips` by name. */
  datatype Gathered = Gathered(indices: seq<int>, named: seq<string>)

  /** One part of the answer, with surrounding whitespace removed: a range
      when it holds a `-`, otherwise a number or a piece of a file name. */
  function GatherPart(zipFiles: seq<string>, raw: string, g: Gathered, checked: bool): Gathered {
    var part := Strip(raw);
    if '-' in part then GatherRange(zipFiles, part, g, checked) else GatherNumberOrName(zipFiles, part, g)
  }

  /** A range `a-b`, both bounds integers, adds the indices `a-1 .. b-1`; a
      malformed range adds nothing. With `checked` only the indices in
      range are added, as for a single number. */
  function GatherRange(zipFiles: seq<string>, part: string, g: Gathered, checked: bool): Gathered {
    var bounds := Split(part, '-');
    if |bounds| != 2 then g else AddRange(zipFiles, ParseInt(bounds[0]), ParseInt(bounds[1]), g, checked)
  }

  function AddRange(zipFiles: seq<string>, start: Option<int>, end: Option<int>, g: Gathered, checked: bool): Gathered {
    if start.None? || end.None? then g
    else
      var r := Range(start.value - 1, end.value);
      g.(indices := g.indices + if checked then InRange(r, |zipFiles|) else r)
  }

  /** A number `v` adds the index `v-1` when it is in range; text that is
      not a number adds the files whose name contains it. */
  function GatherNumberOrName(zipFiles: seq<string>, part: string, g: Gathered): Gathered {
    match ParseInt(part)
    case Some(v) => if 0 <= v - 1 < |zipFiles| then g.(indices := g.indices + [v - 1]) else g
    case None => g.(named := AddNew(g.named, NameMatches(zipFiles, part)))
  }

  /** The parts taken left to right. */
  function Gather(zipFiles: seq<string>, parts: seq<string>, checked: bool): Gathered {
    if parts == [] then Gathered([], [])
    else GatherPart(zipFiles, parts[|parts| - 1], Gather(zipFiles, parts[..|parts| - 1], checked), checked)
  }

  datatype ZipChoice = Cancelled | Chosen(zips: seq<string>) | IndexError

  /** The zip files unpacked for the answer given at the prompt: none when
      there are none or the answer is `n` or `skip`; all of them for an
      empty answer or `all`; otherwise the files chosen by name, in the
      order found, followed by those chosen by number, in ascending order
      of their distinct indices. Choosing nothing cancels. */
  function SelectZips(zipFiles: seq<string>, answer: string, checked: bool): ZipChoice {
    var choice := Strip(answer);
    var lower := LowerStr(choice);
    if zipFiles == [] || lower == "n" || lower == "skip" then Cancelled
    else if lower == "" || lower == "all" then Chosen(zipFiles)
    else Choose(zipFiles, Gather(zipFiles, Split(choice, ','), checked))
  }

  /** The files chosen by name, in the order found, followed by those the
      distinct indices pick in ascending order; choosing nothing cancels. */
  function Choose(zipFiles: seq<string>, g: Gathered): ZipChoice {
    match Pick(zipFiles, SortedSet(g.indices))
    case None => IndexError
    case Some(picked) => if g.named + picked == [] then Cancelled else Chosen(g.named + picked)
  }

  /** The selection as written: the indices of a range are not checked. */
  function SelectZipsAsWritten(zipFiles: seq<string>, answer: string): ZipChoice {
    SelectZips(zipFiles, answer, false)
  }

  /** The selection with the indices of a range checked like single
      numbers. */
  function SelectZipsChecked(zipFiles: seq<string>, answer: string): ZipChoice {
    SelectZips(zipFiles, answer, true)
  }

  /** Every index names a zip file, and every file is one of them. */
  predicate WithinFiles(zipFiles: seq<string>, g: Gathered) {
    (forall y | y in g.indices :: 0 <= y < |zipFiles|) && forall f | f in g.named :: f in zipFiles
  }

  lemma GatherPartChecked(zipFiles: seq<string>, raw: string, g: Gathered)
    requires WithinFiles(zipFiles, g)
    ensures WithinFiles(zipFiles, GatherPart(zipFiles, raw, g, true))
  {
    var part := Strip(raw);
    if '-' in part {
      GatherRangeChecked(zipFiles, part, g);
    } else {
      GatherNumberOrNameChecked(zipFiles, part, g);
    }
  }

  lemma GatherRangeChecked(zipFiles: seq<string>, part: string, g: Gathered)
    requires WithinFiles(zipFiles, g)
    ensures WithinFiles(zipFiles, GatherRange(zipFiles, part, g, true))
  {
  }

  lemma GatherNumberOrNameChecked(zipFiles: seq<string>, part: string, g: Gathered)
    requires WithinFiles(zipFiles, g)
    ensures WithinFiles(zipFiles, GatherNumberOrName(zipFiles, part, g))
  {
    if ParseInt(part).None? {
      var ms := NameMatches(zipFiles, part);
      var r := GatherNumberOrName(zipFiles, part, g);
      assert r.named == AddNew(g.named, ms);
      assert forall f | f in r.named :: f in g.named || f in ms;
    }
  }

  /** With checked ranges every index gathered names a zip file, and every
      file gathered by name is one of them. */
  lemma {:induction false} GatherCheckedInRange(zipFiles: seq<string>, parts: seq<string>)
    ensures WithinFiles(zipFiles, Gather(zipFiles, parts, true))
    decreases |parts|
  {
    if parts != [] {
      GatherCheckedInRange(zipFiles, parts[..|parts| - 1]);
      GatherPartChecked(zipFiles, parts[|parts| - 1], Gather(zipFiles, parts[..|parts| - 1], true));
    }
  }

  /** The corrected selection never raises `IndexError`, and it only ever
      chooses zip files that were found. */
  lemma SelectCheckedSafe(zipFiles: seq<string>, answer: string)
    ensures SelectZipsChecked(zipFiles, answer) != IndexError
    ensures SelectZipsChecked(zipFiles, answer).Chosen? ==>
              forall f | f in SelectZipsChecked(zipFiles, answer).zips :: f in zipFiles
  {
    var parts := Split(Strip(answer), ',');
    GatherCheckedInRange(zipFiles, parts);
    ChooseWithin(zipFiles, Gather(zipFiles, parts, true));
  }

  /** Choosing by what lies within the files picks only found files. */
  lemma ChooseWithin(zipFiles: seq<string>, g: Gathered)
    requires WithinFiles(zipFiles, g)
    ensures Choose(zipFiles, g) != IndexError
    ensures Choose(zipFiles, g).Chosen? ==> forall f | f in Choose(zipFiles, g).zips :: f in zipFiles
  {
    var idxs := SortedSet(g.indices);
    forall k | 0 <= k < |idxs| ensures PyIndexOk(|zipFiles|, idxs[k]) {
      assert idxs[k] in g.indices;
    }
    var p := Pick(zipFiles, idxs).value;
    forall f | f in p ensures f in zipFiles {
      var k :| 0 <= k < |p| && p[k] == f;
    }
  }

  /** A part without `-` is treated alike by both versions. */
  lemma {:induction false} GatherWithoutRange(zipFiles: seq<string>, parts: seq<string>)
    requires forall k | 0 <= k < |parts| :: '-' !in Strip(parts[k])
    ensures Gather(zipFiles, parts, false) == Gather(zipFiles, parts, true)
    decreases |parts|
  {
    if parts != [] {
      GatherWithoutRange(zipFiles, parts[..|parts| - 1]);
    }
  }

  /** An answer without `-` selects the same files in both versions, so the
      selection as written can fail only on a range. */
  lemma NoRangeNoError(zipFiles: seq<string>, answer: string)
    requires '-' !in answer
    ensures SelectZipsAsWritten(zipFiles, answer) == SelectZipsChecked(zipFiles, answer)
    ensures SelectZipsAsWritten(zipFiles, answer) != IndexError
  {
    var choice := Strip(answer);
    StripKeepsOut(answer, '-');
    var parts := Split(choice, ',');
    SplitKeepsOut(choice, ',', '-');
    forall k | 0 <= k < |parts| ensures '-' !in Strip(parts[k]) {
      StripKeepsOut(parts[k], '-');
    }
    GatherWithoutRange(zipFiles, parts);
    SelectCheckedSafe(zipFiles, answer);
  }

  // ---------------------------------------------------------------------
  // Answers that are numbers or ranges

  /** A number typed at the prompt: one or more decimal digits. */
  predicate Numeral(d: string) {
    d != [] && AllDigits(d)
  }

  /** The digits `d` read as `k`. */
  predicate Reads(d: string, k: int) {
    Numeral(d) && DecimalValue(d) == k
  }

  /** Digits and `-` are their own lower case. */
  lemma LowerDigitsDash(s: string)
    requires forall k | 0 <= k < |s| :: IsDigit(s[k]) || s[k] == '-'
    ensures LowerStr(s) == s
  {
  }

  /** Text of digits and dashes that starts and ends with a digit is its
      own strip and its own lower case, and it holds no comma. */
  lemma DigitsDashText(ans: string)
    requires ans != [] && IsDigit(ans[0]) && IsDigit(ans[|ans| - 1])
    requires forall k | 0 <= k < |ans| :: IsDigit(ans[k]) || ans[k] == '-'
    ensures Strip(ans) == ans && LowerStr(ans) == ans && Split(ans, ',') == [ans]
  {
    StripUnchanged(ans);
    LowerDigitsDash(ans);
    NoCommaIn(ans);
    SplitNoDelim(ans, ',');
  }

  lemma NoCommaIn(s: string)
    requires forall k | 0 <= k < |s| :: IsDigit(s[k]) || s[k] == '-'
    ensures ',' !in s
  {
    assert forall k | 0 <= k < |s| :: s[k] != ',';
  }

  /** A number typed alone is one part that reads back as its value. */
  lemma NumberAnswer(d: string)
    requires Numeral(d)
    ensures Strip(d) == d && LowerStr(d) == d && '-' !in d
            && Split(d, ',') == [d] && ParseInt(d) == Some(DecimalValue(d))
  {
    DigitsDashText(d);
    DigitsWithout(d, '-');
    ParseIntDigits(d);
  }

  /** One part alone gathers what that part gathers. */
  lemma GatherOne(zipFiles: seq<string>, part: string, checked: bool)
    ensures Gather(zipFiles, [part], checked) == GatherPart(zipFiles, part, Gathered([], []), checked)
  {
    var noParts: seq<string> := [];
    assert [part][..0] == noParts;
  }

  /** An answer that is not a keyword chooses by what its parts gather. */
  lemma SelectGathered(zipFiles: seq<string>, answer: string, checked: bool)
    requires zipFiles != []
    requires var lower := LowerStr(Strip(answer));
             lower != "n" && lower != "skip" && lower != "" && lower != "all"
    ensures SelectZips(zipFiles, answer, checked)
            == Choose(zipFiles, Gather(zipFiles, Split(Strip(answer), ','), checked))
  {
  }

  /** Indices alone choose the files they pick. */
  lemma ChooseIndices(zipFiles: seq<string>, idxs: seq<int>)
    ensures Choose(zipFiles, Gathered(idxs, []))
            == match Pick(zipFiles, SortedSet(idxs))
               case None => IndexError
               case Some(p) => if p == [] then Cancelled else Chosen(p)
  {
    match Pick(zipFiles, SortedSet(idxs))
    case None =>
    case Some(p) => assert [] + p == p;
  }

  /** The indices gathered from the number `d` typed alone. */
  lemma NumberGather(zipFiles: seq<string>, d: string, k: nat, checked: bool)
    requires Reads(d, k)
    ensures Gather(zipFiles, Split(Strip(d), ','), checked)
            == Gathered(if 1 <= k <= |zipFiles| then [k - 1] else [], [])
  {
    NumberAnswer(d);
    GatherOne(zipFiles, d, checked);
    var noIndices: seq<int> := [];
    assert noIndices + [k - 1] == [k - 1];
  }

  lemma NotKeyword(ans: string)
    requires ans != [] && IsDigit(ans[0])
    ensures ans != "n" && ans != "skip" && ans != "" && ans != "all"
  {
  }

  lemma PickOne(zipFiles: seq<string>, i: nat)
    requires i < |zipFiles|
    ensures Pick(zipFiles, [i]) == Some([zipFiles[i]])
  {
    var r := Pick(zipFiles, [i]);
    assert PyIndexOk(|zipFiles|, [i][0]);
    assert |r.value| == 1 && r.value[0] == zipFiles[i];
    assert r.value == [zipFiles[i]];
  }

  lemma SortedSingle(x: int)
    ensures SortedSet([x]) == [x]
  {
    IncreasingUnique(SortedSet([x]), [x]);
  }

  /** A single number picks the file it numbers, counting from 1, in both
      versions; a number that numbers no file chooses nothing. */
  lemma SingleNumber(zipFiles: seq<string>, d: string, k: nat, checked: bool)
    requires zipFiles != [] && Reads(d, k)
    ensures 1 <= k <= |zipFiles| ==> SelectZips(zipFiles, d, checked) == Chosen([zipFiles[k - 1]])
    ensures (k == 0 || |zipFiles| < k) ==> SelectZips(zipFiles, d, checked) == Cancelled
  {
    NumberAnswer(d);
    NotKeyword(d);
    NumberGather(zipFiles, d, k, checked);
    SelectGathered(zipFiles, d, checked);
    if 1 <= k <= |zipFiles| {
      ChooseIndices(zipFiles, [k - 1]);
      SortedSingle(k - 1);
      PickOne(zipFiles, k - 1);
    } else {
      ChooseIndices(zipFiles, []);
      var none: seq<int> := [];
      assert SortedSet(none) == none;
      assert Pick(zipFiles, none) == Some([]);
    }
  }

  /** The answer `a-b` is one part of digits and a dash. */
  lemma RangeAnswer(da: string, db: string)
    requires Numeral(da) && Numeral(db)
    ensures var ans := da + "-" + db;
            Strip(ans) == ans && LowerStr(ans) == ans && '-' in ans && IsDigit(ans[0])
            && Split(ans, ',') == [ans]
  {
    RangeAnswerChars(da, db);
    DigitsDashText(da + "-" + db);
    assert (da + "-" + db)[|da|] == '-';
  }

  lemma RangeAnswerChars(da: string, db: string)
    requires Numeral(da) && Numeral(db)
    ensures var ans := da + "-" + db;
            IsDigit(ans[0]) && IsDigit(ans[|ans| - 1])
            && forall k | 0 <= k < |ans| :: IsDigit(ans[k]) || ans[k] == '-'
  {
    var ans := da + "-" + db;
    forall k | 0 <= k < |ans| ensures IsDigit(ans[k]) || ans[k] == '-' {
      if k < |da| { assert ans[k] == da[k]; }
      else if k > |da| { assert ans[k] == db[k - |da| - 1]; }
    }
    assert ans[0] == da[0] && ans[|ans| - 1] == db[|db| - 1];
  }

  /** The two bounds of the answer `a-b` read back as their values. */
  lemma RangeBounds(da: string, db: string, a: nat, b: nat)
    requires Reads(da, a) && Reads(db, b)
    ensures var bounds := Split(da + "-" + db, '-');
            |bounds| == 2 && ParseInt(bounds[0]) == Some(a) && ParseInt(bounds[1]) == Some(b)
  {
    DigitsWithout(da, '-');
    DigitsWithout(db, '-');
    SplitPair(da, '-', db);
    assert da + "-" + db == da + ['-'] + db;
    ParseIntDigits(da);
    ParseIntDigits(db);
  }

  /** The indices gathered from the answer `a-b`. */
  lemma RangeGather(zipFiles: seq<string>, da: string, db: string, a: nat, b: nat, checked: bool)
    requires Reads(da, a) && Reads(db, b)
    ensures var ans := da + "-" + db;
            var r := Range(a - 1, b);
            Gather(zipFiles, Split(Strip(ans), ','), checked)
            == Gathered(if checked then InRange(r, |zipFiles|) else r, [])
  {
    var ans := da + "-" + db;
    RangeAnswer(da, db);
    GatherOne(zipFiles, ans, checked);
    RangeBounds(da, db, a, b);
    AddRangeOf(zipFiles, a, b, checked);
  }

  lemma AddRangeOf(zipFiles: seq<string>, a: int, b: int, checked: bool)
    ensures var r := Range(a - 1, b);
            AddRange(zipFiles, Some(a), Some(b), Gathered([], []), checked)
            == Gathered(if checked then InRange(r, |zipFiles|) else r, [])
  {
    var r := Range(a - 1, b);
    var noIndices: seq<int> := [];
    assert noIndices + r == r && noIndices + InRange(r, |zipFiles|) == InRange(r, |zipFiles|);
  }

  /** The indices of the range `a-b`: `a-1 .. b-1`, and with `checked`
      only those that index a list of length `n`. */
  function RangeIndices(n: nat, a: int, b: int, checked: bool): seq<int> {
    var r := Range(a - 1, b);
    if checked then InRange(r, n) else r
  }

  /** The range answer `a-b` chooses by its indices alone. */
  lemma SelectRange(zipFiles: seq<string>, da: string, db: string, a: nat, b: nat, checked: bool)
    requires zipFiles != [] && Reads(da, a) && Reads(db, b)
    ensures SelectZips(zipFiles, da + "-" + db, checked)
            == Choose(zipFiles, Gathered(RangeIndices(|zipFiles|, a, b, checked), []))
  {
    var ans := da + "-" + db;
    RangeAnswer(da, db);
    NotKeyword(ans);
    RangeGather(zipFiles, da, db, a, b, checked);
    SelectGathered(zipFiles, ans, checked);
  }

  lemma RangeIncreasing(a: int, b: int)
    ensures Increasing(Range(a, b))
  {
  }

  /** Sorting the indices of a range leaves them as they are. */
  lemma SortedRange(a: int, b: int)
    ensures SortedSet(Range(a, b)) == Range(a, b)
  {
    RangeIncreasing(a, b);
    IncreasingUnique(SortedSet(Range(a, b)), Range(a, b));
  }

  /** Keeping the indices of a range that are in range clips the range. */
  /** A value is in `range(a, b)` exactly when it lies between the bounds. */
  lemma InSpan(a: int, b: int, y: int)
    ensures y in Range(a, b) <==> a <= y < b
  {
    if a <= y < b { assert Range(a, b)[y - a] == y; }
  }

  lemma InRangeOfRange(a: int, b: int, n: nat)
    ensures var lo := if a < 0 then 0 else a;
            var hi := if b < n then b else n;
            forall y :: y in InRange(Range(a, b), n) <==> y in Range(lo, hi)
  {
    var lo := if a < 0 then 0 else a;
    var hi := if b < n then b else n;
    forall y ensures y in InRange(Range(a, b), n) <==> y in Range(lo, hi) {
      InSpan(a, b, y);
      InSpan(lo, hi, y);
    }
  }

  lemma SortedClippedRange(a: int, b: int, n: nat)
    ensures var lo := if a < 0 then 0 else a;
            var hi := if b < n then b else n;
            SortedSet(InRange(Range(a, b), n)) == Range(lo, hi)
  {
    var lo := if a < 0 then 0 else a;
    var hi := if b < n then b else n;
    InRangeOfRange(a, b, n);
    RangeIncreasing(lo, hi);
    IncreasingUnique(SortedSet(InRange(Range(a, b), n)), Range(lo, hi));
  }

  /** Picking the indices of a range inside the list gives the slice. */
  lemma PickRange(zipFiles: seq<string>, lo: nat, hi: nat)
    requires lo <= hi <= |zipFiles|
    ensures Pick(zipFiles, Range(lo, hi)) == Some(zipFiles[lo..hi])
  {
    var r := Pick(zipFiles, Range(lo, hi));
    assert forall k | 0 <= k < hi - lo :: PyIndexOk(|zipFiles|, Range(lo, hi)[k]);
    assert r.value == zipFiles[lo..hi];
  }

  /** A range inside the list picks those files, in both versions. */
  lemma RangeWithinFiles(zipFiles: seq<string>, da: string, db: string, a: nat, b: nat, checked: bool)
    requires Reads(da, a) && Reads(db, b) && 1 <= a <= b <= |zipFiles|
    ensures SelectZips(zipFiles, da + "-" + db, checked) == Chosen(zipFiles[a - 1..b])
  {
    SelectRange(zipFiles, da, db, a, b, checked);
    ChooseWithinFiles(zipFiles, a, b, checked);
  }

  lemma ChooseWithinFiles(zipFiles: seq<string>, a: nat, b: nat, checked: bool)
    requires 1 <= a <= b <= |zipFiles|
    ensures Choose(zipFiles, Gathered(RangeIndices(|zipFiles|, a, b, checked), [])) == Chosen(zipFiles[a - 1..b])
  {
    ChooseIndices(zipFiles, RangeIndices(|zipFiles|, a, b, checked));
    if checked {
      SortedClippedRange(a - 1, b, |zipFiles|);
    } else {
      SortedRange(a - 1, b);
    }
    PickRange(zipFiles, a - 1, b);
  }

  /** As written, a range that runs past the last file raises
      `IndexError`, which nothing catches. */
  lemma RangePastEndFails(zipFiles: seq<string>, da: string, db: string, a: nat, b: nat)
    requires Reads(da, a) && Reads(db, b) && zipFiles != [] && a <= b && |zipFiles| < b
    ensures SelectZipsAsWritten(zipFiles, da + "-" + db) == IndexError
  {
    SelectRange(zipFiles, da, db, a, b, false);
    ChoosePastEnd(zipFiles, a, b);
  }

  lemma ChoosePastEnd(zipFiles: seq<string>, a: nat, b: nat)
    requires a <= b && |zipFiles| < b
    ensures Choose(zipFiles, Gathered(RangeIndices(|zipFiles|, a, b, false), [])) == IndexError
  {
    var r := Range(a - 1, b);
    ChooseIndices(zipFiles, r);
    SortedRange(a - 1, b);
    assert r[|r| - 1] == b - 1 && !PyIndexOk(|zipFiles|, r[|r| - 1]);
  }

  /** As written, the range `0-b` starts at index -1, which Python reads as
      the last file, so the last file is unpacked first. */
  lemma ZeroRangeWraps(zipFiles: seq<string>, da: string, db: string, b: nat)
    requires Reads(da, 0) && Reads(db, b) && 1 <= b <= |zipFiles|
    ensures SelectZipsAsWritten(zipFiles, da + "-" + db)
            == Chosen([zipFiles[|zipFiles| - 1]] + zipFiles[..b])
  {
    SelectRange(zipFiles, da, db, 0, b, false);
    ChooseWrapped(zipFiles, b);
  }

  lemma ChooseWrapped(zipFiles: seq<string>, b: nat)
    requires 1 <= b <= |zipFiles|
    ensures Choose(zipFiles, Gathered(RangeIndices(|zipFiles|, 0, b, false), []))
            == Chosen([zipFiles[|zipFiles| - 1]] + zipFiles[..b])
  {
    ChooseIndices(zipFiles, Range(-1, b));
    SortedRange(-1, b);
    PickWrapped(zipFiles, b);
  }

  /** The indices `-1 .. b-1` pick the last file and then the first `b`. */
  lemma PickWrapped(zipFiles: seq<string>, b: nat)
    requires 1 <= b <= |zipFiles|
    ensures Pick(zipFiles, Range(-1, b)) == Some([zipFiles[|zipFiles| - 1]] + zipFiles[..b])
  {
    var idxs := Range(-1, b);
    var w := [zipFiles[|zipFiles| - 1]] + zipFiles[..b];
    forall k | 0 <= k < |idxs|
      ensures PyIndexOk(|zipFiles|, idxs[k]) && w[k] == zipFiles[PyIndex(|zipFiles|, idxs[k])]
    {
      WrappedAt(zipFiles, b, k);
    }
    PickEach(zipFiles, idxs, w);
  }

  /** Position `k` of the wrapped selection is the file at index `k - 1`. */
  lemma WrappedAt(zipFiles: seq<string>, b: nat, k: nat)
    requires 1 <= b <= |zipFiles| && k <= b
    ensures PyIndexOk(|zipFiles|, k - 1)
    ensures ([zipFiles[|zipFiles| - 1]] + zipFiles[..b])[k] == zipFiles[PyIndex(|zipFiles|, k - 1)]
  {
    if k > 0 {
      assert ([zipFiles[|zipFiles| - 1]] + zipFiles[..b])[k] == zipFiles[..b][k - 1];
    }
  }

  /** Indices that are all valid pick the files they index, one by one. */
  lemma PickEach(zipFiles: seq<string>, idxs: seq<int>, w: seq<string>)
    requires forall k | 0 <= k < |idxs| :: PyIndexOk(|zipFiles|, idxs[k])
    requires |w| == |idxs| && forall k | 0 <= k < |idxs| :: w[k] == zipFiles[PyIndex(|zipFiles|, idxs[k])]
    ensures Pick(zipFiles, idxs) == Some(w)
  {
    assert Pick(zipFiles, idxs).value == w;
  }

  /** With checked ranges the part of a range past the files is dropped. */
  lemma CheckedRangeClipped(zipFiles: seq<string>, da: string, db: string, a: nat, b: nat)
    requires Reads(da, a) && Reads(db, b) && 1 <= a <= b && a <= |zipFiles|
    ensures var hi := if b < |zipFiles| then b else |zipFiles|;
            SelectZipsChecked(zipFiles, da + "-" + db) == Chosen(zipFiles[a - 1..hi])
  {
    SelectRange(zipFiles, da, db, a, b, true);
    ChooseClipped(zipFiles, a, b);
  }

  lemma ChooseClipped(zipFiles: seq<string>, a: nat, b: nat)
    requires 1 <= a <= b && a <= |zipFiles|
    ensures var hi := if b < |zipFiles| then b else |zipFiles|;
            Choose(zipFiles, Gathered(RangeIndices(|zipFiles|, a, b, true), [])) == Chosen(zipFiles[a - 1..hi])
  {
    ChooseIndices(zipFiles, InRange(Range(a - 1, b), |zipFiles|));
    SortedClippedRange(a - 1, b, |zipFiles|);
    PickRange(zipFiles, a - 1, if b < |zipFiles| then b else |zipFiles|);
  }

  lemma OneToThree()
    ensures "1" + "-" + "3" == "1-3" && Reads("1", 1) && Reads("3", 3)
  {
  }

  /** The answer `1-3` with two zip files: the selection as written fails
      with `IndexError`... */
  lemma TwoFilesOneToThree()
    ensures SelectZipsAsWritten(["a.zip", "b.zip"], "1-3") == IndexError
  {
    OneToThree();
    RangePastEndFails(["a.zip", "b.zip"], "1", "3", 1, 3);
  }

  /** ... while the checked one unpacks both. */
  lemma TwoFilesOneToThreeChecked()
    ensures SelectZipsChecked(["a.zip", "b.zip"], "1-3") == Chosen(["a.zip", "b.zip"])
  {
    var zs := ["a.zip", "b.zip"];
    OneToThree();
    CheckedRangeClipped(zs, "1", "3", 1, 3);
    assert zs[0..2] == zs;
  }

  // ---------------------------------------------------------------------
  // Merge order

  /** `[int(x.strip()) for x in parts if x.strip()]`: `None` when a part
      that is not blank is not an integer. */
  function ParseAll(parts: seq<string>): Option<seq<int>> {
    if parts == [] then Some([])
    else
      var rest := ParseAll(parts[..|parts| - 1]);
      var t := Strip(parts[|parts| - 1]);
      if rest.None? then None
      else if t == [] then rest
      else
        match ParseInt(t)
        case None => None
        case Some(v) => Some(rest.value + [v])
  }

  /** The categories the numbers name, counting from 1, in the order given;
      numbers that name none are skipped. */
  function PickCategories(nums: seq<int>, categories: seq<string>): (r: seq<string>)
    ensures |r| <= |nums| && forall c | c in r :: c in categories
  {
    if nums == [] then []
    else
      var rest := PickCategories(nums[..|nums| - 1], categories);
      var v := nums[|nums| - 1];
      if 1 <= v <= |categories| then rest + [categories[v - 1]] else rest
  }

  /** The merge order for the answer: the categories in their own order for
      a blank answer, an answer that does not parse, or one that names no
      category; otherwise the categories named, in the order named. */
  function MergeOrder(answer: string, categories: seq<string>): (order: seq<string>)
    ensures forall c | c in order :: c in categories
    ensures categories != [] ==> order != []
    ensures Strip(answer) == [] ==> order == categories
  {
    var a := Strip(answer);
    if a == [] then categories
    else
      match ParseAll(Split(a, ','))
      case None => categories
      case Some(nums) =>
        var picked := PickCategories(nums, categories);
        if picked == [] then categories else picked
  }

  /** Every part is a number. */
  predicate Numerals(ds: seq<string>) {
    forall j | 0 <= j < |ds| :: Numeral(ds[j])
  }

  lemma NumeralsInit(ds: seq<string>)
    requires ds != [] && Numerals(ds)
    ensures Numerals(ds[..|ds| - 1]) && Numeral(ds[|ds| - 1])
  {
    assert forall j | 0 <= j < |ds| - 1 :: ds[..|ds| - 1][j] == ds[j];
  }

  /** The values of numbers typed at the prompt. */
  function Values(ds: seq<string>): (ks: seq<int>)
    requires Numerals(ds)
    ensures |ks| == |ds|
    ensures forall j | 0 <= j < |ds| :: AllDigits(ds[j]) && ks[j] == DecimalValue(ds[j])
  {
    if ds == [] then []
    else
      var n := |ds| - 1;
      NumeralsInit(ds);
      assert forall j | 0 <= j < n :: ds[..n][j] == ds[j];
      Values(ds[..n]) + [DecimalValue(ds[n])]
  }

  /** Numbers read back as their values. */
  lemma {:induction false} ParseAllNumerals(ds: seq<string>)
    requires Numerals(ds)
    ensures ParseAll(ds) == Some(Values(ds))
    decreases |ds|
  {
    if ds != [] {
      NumeralsInit(ds);
      ParseAllNumerals(ds[..|ds| - 1]);
      ParseAllLast(ds);
    }
  }

  /** One more number typed after parts that parse. */
  lemma ParseAllLast(ds: seq<string>)
    requires ds != [] && ParseAll(ds[..|ds| - 1]).Some? && Numeral(ds[|ds| - 1])
    ensures ParseAll(ds) == Some(ParseAll(ds[..|ds| - 1]).value + [DecimalValue(ds[|ds| - 1])])
  {
    NumberAnswer(ds[|ds| - 1]);
  }

  /** Numbers that each name a category pick those categories in order. */
  lemma {:induction false} PickNamed(ks: seq<int>, categories: seq<string>)
    requires forall j | 0 <= j < |ks| :: 1 <= ks[j] <= |categories|
    ensures |PickCategories(ks, categories)| == |ks|
    ensures forall j | 0 <= j < |ks| :: PickCategories(ks, categories)[j] == categories[ks[j] - 1]
    decreases |ks|
  {
    if ks != [] {
      var n := |ks| - 1;
      PickNamed(ks[..n], categories);
      var r := PickCategories(ks, categories);
      assert r == PickCategories(ks[..n], categories) + [categories[ks[n] - 1]];
      forall j | 0 <= j < n ensures r[j] == categories[ks[j] - 1] {
        assert ks[..n][j] == ks[j];
      }
    }
  }

  /** An answer that parses to numbers which each name a category gives
      those categories in the order typed, repeats included. */
  lemma OrderOfPicks(ans: string, ks: seq<int>, categories: seq<string>)
    requires Strip(ans) != [] && ParseAll(Split(Strip(ans), ',')) == Some(ks)
    requires ks != [] && forall j | 0 <= j < |ks| :: 1 <= ks[j] <= |categories|
    ensures var order := MergeOrder(ans, categories);
            |order| == |ks| && forall j | 0 <= j < |ks| :: order[j] == categories[ks[j] - 1]
  {
    PickNamed(ks, categories);
  }

  /** An answer whose parts are all blank names no category, so the
      categories keep their own order. */
  lemma OrderOfNoNumbers(ans: string, categories: seq<string>)
    requires ParseAll(Split(Strip(ans), ',')) == Some([])
    ensures MergeOrder(ans, categories) == categories
  {
    assert PickCategories([], categories) == [];
  }

  /** Numbers typed with commas between them form such an answer. */
  lemma JoinedAnswer(ds: seq<string>)
    requires |ds| >= 1 && Numerals(ds)
    ensures var ans := JoinWith(ds, ',');
            Strip(ans) == ans && ans != [] && Split(ans, ',') == ds
  {
    assert Numeral(ds[0]) && Numeral(ds[|ds| - 1]);
    JoinWithEnds(ds, ',');
    StripUnchanged(JoinWith(ds, ','));
    forall j | 0 <= j < |ds| ensures ',' !in ds[j] {
      assert Numeral(ds[j]);
      DigitsWithout(ds[j], ',');
    }
    JoinSplit(ds, ',');
  }
}
