/** `FileDiscovery`: splits a listing of PDF paths into answer files (left
    out), review tests, and the remaining files grouped by category, each
    group in ascending unit order. The directory walk itself is not
    modelled: the listing is a parameter. Paths are their `str(path)` text. */
module FileDiscovery {
  import opened Strings
  import opened Regex
  import Paths
  import opened Seqs
  import opened Grouping

  // ---------------------------------------------------------------------
  // The pattern tables

  /** `answer`, `답지`, `정답`. */
  function ExcludePatterns(): seq<Pattern> {
    [Word("answer"), Word("답지"), Word("정답")]
  }

  /** `review\s*test`, `리뷰\s*테스트`. */
  function ReviewTestPatterns(): seq<Pattern> {
    [Word("review") + [Spaces] + Word("test"), Word("리뷰") + [Spaces] + Word("테스트")]
  }

  const UnitTest := "Unit Test"

  /** The file types in the order the dictionary lists them, each with its
      two patterns: the words apart and run together. */
  function TypeTable(): seq<(string, seq<Pattern>)> {
    [ ("Word List", [Phrase("word", "list"), Word("wordlist")]),
      ("Word Test", [Phrase("word", "test"), Word("wordtest")]),
      ("Translation Sheet", [Phrase("translation", "sheet"), Word("translationsheet")]),
      ("Unscramble Sheet", [Phrase("unscramble", "sheet"), Word("unscramblesheet")]),
      (UnitTest, [Phrase("unit", "test"), Word("unittest")]) ]
  }

  /** `unit[ _-]?(\d{1,2})`, `u[ _-]?(\d{1,2})`, `_u(\d{1,2})`. */
  function UnitPatterns(): seq<Pattern> {
    [ Word("unit") + [Opt(" _-"), Digits12(true)],
      [Lit('u'), Opt(" _-"), Digits12(true)],
      Word("_u") + [Digits12(true)] ]
  }

  // ---------------------------------------------------------------------
  // Classifying one path

  predicate Excluded(f: string) {
    AnyFound(ExcludePatterns(), LowerStr(f))
  }

  predicate IsReviewTest(f: string) {
    AnyFound(ReviewTestPatterns(), LowerStr(f))
  }

  /** Each unit pattern has one capturing group: the one- or two-digit run. */
  lemma UnitPatternCaptures(i: nat)
    requires i < |UnitPatterns()|
    ensures Captures(UnitPatterns()[i]) == [Digits12(true)]
  {
    assert Captures([Digits12(true)]) == [Digits12(true)];
    assert Captures([Opt(" _-"), Digits12(true)]) == [Digits12(true)];
    if i == 0 {
      CapturesAppend(Word("unit"), [Opt(" _-"), Digits12(true)]);
    } else if i == 1 {
      assert Captures([Lit('u'), Opt(" _-"), Digits12(true)]) == [Digits12(true)];
    } else {
      CapturesAppend(Word("_u"), [Digits12(true)]);
    }
  }

  /** Each unit pattern captures exactly one group, one or two digits long. */
  lemma UnitPatternGroup(i: nat, gs: seq<string>)
    requires i < |UnitPatterns()| && GroupsFit(UnitPatterns()[i], gs)
    ensures |gs| == 1 && AllDigits(gs[0]) && |gs[0]| <= 2
  {
    UnitPatternCaptures(i);
    assert Fits(Digits12(true), gs[0]);
    DigitGroup(Digits12(true), gs[0]);
  }

  /** `extract_unit_number`: the number captured by the first of the unit
      patterns that is found in the path, or 0 when none is. */
  function UnitNumber(f: string): (n: nat)
    ensures n < 100
    ensures !AnyFound(UnitPatterns(), f) ==> n == 0
  {
    match FirstSearch(UnitPatterns(), f)
    case None => 0
    case Some((i, m)) =>
      UnitPatternGroup(i, m.groups);
      TwoDigitsBelow100(m.groups[0]);
      DecimalValue(m.groups[0])
  }

  /** The number is the group of the earliest pattern in the list that is
      found: a later pattern decides only when every earlier one fails. */
  lemma UnitNumberFirstPattern(f: string, i: nat)
    requires i < |UnitPatterns()| && Found(UnitPatterns()[i], f)
    requires forall j | 0 <= j < i :: !Found(UnitPatterns()[j], f)
    ensures var g := Search(UnitPatterns()[i], f).value.groups;
            |g| == 1 && AllDigits(g[0]) && UnitNumber(f) == DecimalValue(g[0])
  {
    var r := FirstSearch(UnitPatterns(), f);
    assert AnyFound(UnitPatterns(), f);
    assert r.Some?;
    var (k, m) := r.value;
    assert k == i;
    UnitPatternGroup(i, m.groups);
  }

  /** The sort key of a path. */
  function UnitKey(): string -> int {
    f => UnitNumber(f) as int
  }

  /** Row `i` of `table` is the first row, other than "Unit Test", one of
      whose patterns is found in `s`. */
  predicate FirstTypeAt(table: seq<(string, seq<Pattern>)>, s: string, i: nat) {
    && i < |table| && table[i].0 != UnitTest && AnyFound(table[i].1, s)
    && forall j | 0 <= j < i :: table[j].0 == UnitTest || !AnyFound(table[j].1, s)
  }

  /** The index of the row the loop over the type table stops at, if any. */
  function FirstType(table: seq<(string, seq<Pattern>)>, s: string): (r: Option<nat>)
    ensures r.None? <==> forall i | 0 <= i < |table| :: table[i].0 == UnitTest || !AnyFound(table[i].1, s)
    ensures r.Some? ==> FirstTypeAt(table, s, r.value)
    decreases |table|
  {
    if |table| == 0 then None
    else if table[0].0 != UnitTest && AnyFound(table[0].1, s) then Some(0)
    else
      assert forall i | 1 <= i < |table| :: table[i] == table[1..][i - 1];
      match FirstType(table[1..], s)
      case None => None
      case Some(i) => Some(i + 1)
  }

  /** The name of the row the loop over the type table stops at, if any. */
  function FirstTypeName(table: seq<(string, seq<Pattern>)>, s: string): Option<string> {
    match FirstType(table, s)
    case None => None
    case Some(i) => Some(table[i].0)
  }

  /** `extract_file_type`: "Unit Test" when `unit\s*test` is found, or else
      the first type, in table order, one of whose patterns is found. */
  function FileType(f: string): (r: Option<string>)
    ensures Found(Phrase("unit", "test"), LowerStr(f)) ==> r == Some(UnitTest)
  {
    var s := LowerStr(f);
    if Found(Phrase("unit", "test"), s) then Some(UnitTest)
    else FirstTypeName(TypeTable(), s)
  }

  /** Without `unit\s*test`, the type is the name of the first row, other
      than "Unit Test", one of whose patterns is found, and there is none
      when no such row exists. */
  lemma FileTypeFromTable(f: string)
    requires !Found(Phrase("unit", "test"), LowerStr(f))
    ensures match FirstType(TypeTable(), LowerStr(f))
            case None => FileType(f).None?
            case Some(i) => FirstTypeAt(TypeTable(), LowerStr(f), i) && FileType(f) == Some(TypeTable()[i].0)
  {
  }

  /** `_normalize_category_name`: surrounding whitespace removed. */
  function NormalizeCategoryName(name: string): string {
    Strip(name)
  }

  /** The category a non-review path is filed under: its type, or else its
      normalised stem. */
  function CategoryOf(f: string): string {
    match FileType(f)
    case Some(t) => t
    case None => NormalizeCategoryName(Paths.Stem(f))
  }

  // ---------------------------------------------------------------------
  // The selections, as conditions

  function NotExcluded(): string -> bool {
    f => !Excluded(f)
  }

  function IsReview(): string -> bool {
    f => IsReviewTest(f)
  }

  function NotIn(xs: seq<string>): string -> bool {
    f => f !in xs
  }

  function Category(): string -> string {
    f => CategoryOf(f)
  }

  /** The non-review paths of category `c`. */
  function InCat(c: string): string -> bool {
    InGroup(IsReview(), Category(), c)
  }

  // ---------------------------------------------------------------------
  // The two filters

  /** `filter_excluded_files`: the paths, in order, whose lower-cased text
      matches no exclude pattern. */
  method FilterExcludedFiles(files: seq<string>) returns (filtered: seq<string>)
    ensures filtered == Filter(files, NotExcluded())
    ensures forall f :: f in filtered <==> f in files && !Excluded(f)
    ensures Subsequence(filtered, files)
  {
    filtered := [];
    var i := 0;
    while i < |files|
      invariant 0 <= i <= |files|
      invariant filtered == Filter(files[..i], NotExcluded())
    {
      var excluded := SearchAny(ExcludePatterns(), LowerStr(files[i]));
      FilterPrefixStep(files, i, NotExcluded());
      if !excluded {
        filtered := filtered + [files[i]];
      }
      i := i + 1;
    }
    assert files[..i] == files;
    forall f ensures f in filtered <==> f in files && !Excluded(f) {
      FilterMembers(files, NotExcluded(), f);
    }
    FilterSubsequence(files, NotExcluded());
  }

  /** `find_review_tests`: the paths, in order, whose lower-cased text
      matches a review pattern. */
  method FindReviewTests(files: seq<string>) returns (reviews: seq<string>)
    ensures reviews == Filter(files, IsReview())
    ensures forall f :: f in reviews <==> f in files && IsReviewTest(f)
    ensures Subsequence(reviews, files)
  {
    reviews := [];
    var i := 0;
    while i < |files|
      invariant 0 <= i <= |files|
      invariant reviews == Filter(files[..i], IsReview())
    {
      var found := SearchAny(ReviewTestPatterns(), LowerStr(files[i]));
      FilterPrefixStep(files, i, IsReview());
      if found {
        reviews := reviews + [files[i]];
      }
      i := i + 1;
    }
    assert files[..i] == files;
    forall f ensures f in reviews <==> f in files && IsReviewTest(f) {
      FilterMembers(files, IsReview(), f);
    }
    FilterSubsequence(files, IsReview());
  }

  // ---------------------------------------------------------------------
  // Categories

  /** The category names in dictionary key order. */
  function CategoryNames(files: seq<string>): seq<string> {
    GroupNames(files, IsReview(), Category())
  }

  /** The list `categorize_files` builds for `c`: the category's paths in
      input order, then sorted by unit number. */
  function CategoryList(files: seq<string>, c: string): seq<string> {
    SortByKey(Filter(files, InCat(c)), UnitKey())
  }

  /** `categorize_files`: files every non-review path under its category, in
      order of appearance, then sorts each list by unit number. `names`
      is the dictionary's key order. */
  method CategorizeFiles(files: seq<string>) returns (names: seq<string>, categories: map<string, seq<string>>)
    ensures names == CategoryNames(files) && Distinct(names)
    ensures forall c :: c in categories <==> c in names
    ensures forall c | c in categories :: categories[c] == CategoryList(files, c)
    ensures TotalSize(names, categories) == |Filter(files, Kept(IsReview()))|
  {
    names, categories := GroupAndSort(files, IsReview(), Category(), UnitKey());
  }

  /** A path is in the list of `c` iff it is a non-review input filed under
      `c`: no review test is in any category, and every other input is in
      exactly the list of its own category. */
  lemma CategoryListMembers(files: seq<string>, c: string, f: string)
    ensures f in CategoryList(files, c) <==> f in files && !IsReviewTest(f) && CategoryOf(f) == c
  {
    SortedGroupMembers(files, IsReview(), Category(), c, UnitKey(), f);
  }

  /** Each list is in ascending unit order, and paths with the same unit
      number keep their input order. */
  lemma CategoryListOrder(files: seq<string>, c: string, u: int)
    ensures SortedBy(CategoryList(files, c), UnitKey())
    ensures Filter(CategoryList(files, c), KeyIs(UnitKey(), u))
            == Filter(Filter(files, InCat(c)), KeyIs(UnitKey(), u))
  {
    SortSorted(Filter(files, InCat(c)), UnitKey());
    SortStable(Filter(files, InCat(c)), UnitKey(), u);
  }

  // ---------------------------------------------------------------------
  // The whole pass

  /** Removing the selected paths from a list leaves exactly the others, in
      order, and none of them is selected. */
  lemma RemoveSelected(xs: seq<string>, p: string -> bool)
    ensures var ys := Filter(xs, p);
            var zs := Filter(xs, NotIn(ys));
            |zs| + |ys| == |xs|
            && (forall f :: f in zs <==> f in xs && !p(f))
            && Filter(zs, Kept(p)) == zs
  {
    var ys := Filter(xs, p);
    var zs := Filter(xs, NotIn(ys));
    forall i | 0 <= i < |xs| ensures NotIn(ys)(xs[i]) == !p(xs[i]) {
      FilterMembers(xs, p, xs[i]);
    }
    FilterPartition(xs, p, NotIn(ys));
    forall f ensures f in zs <==> f in xs && !p(f) {
      FilterMembers(xs, NotIn(ys), f);
      FilterMembers(xs, p, f);
    }
    forall i | 0 <= i < |zs| ensures Kept(p)(zs[i]) {
      assert zs[i] in zs;
    }
    FilterAll(zs, Kept(p));
  }

  datatype Discovery = Discovery(
    all: seq<string>,
    main: seq<string>,
    reviewTests: seq<string>,
    categoryNames: seq<string>,
    categories: map<string, seq<string>>)

  /** `discover` over the listing `pdfs` the directory walk produced. */
  method Discover(pdfs: seq<string>, excludeAnswers: bool) returns (d: Discovery)
    ensures d.all == (if excludeAnswers then Filter(pdfs, NotExcluded()) else pdfs)
    ensures d.reviewTests == Filter(d.all, IsReview())
    ensures d.main == Filter(d.all, NotIn(d.reviewTests))
    ensures forall f :: f in d.main <==> f in d.all && !IsReviewTest(f)
    ensures |d.main| + |d.reviewTests| == |d.all|
    ensures d.categoryNames == CategoryNames(d.main)
    ensures forall c :: c in d.categories <==> c in d.categoryNames
    ensures forall c | c in d.categories :: d.categories[c] == CategoryList(d.main, c)
    ensures TotalSize(d.categoryNames, d.categories) == |d.main|
  {
    var all := pdfs;
    if excludeAnswers {
      all := FilterExcludedFiles(pdfs);
    }
    var reviews := FindReviewTests(all);
    var main := Filter(all, NotIn(reviews));
    RemoveSelected(all, IsReview());
    var names, categories := CategorizeFiles(main);
    d := Discovery(all, main, reviews, names, categories);
  }
}
