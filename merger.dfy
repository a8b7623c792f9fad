/** `Merger`: the merge engine. For each unit it cuts the unit's pages out
    of every category PDF, in the configured order, appends whole review
    tests at the last unit of their range, and writes `UnitNN.pdf`; it
    keeps counters and a log as it goes. PDFs are sequences of page ids;
    the input files and the output directory are maps from path to PDF. */
module Merger {
  import opened Strings
  import Seqs

  type PageId = nat

  /** A file as the PDF reader sees it: its pages, or a failure to read it. */
  datatype Doc = Pdf(pages: seq<PageId>) | Damaged

  /** The input files; a path missing from the map does not exist. */
  type Files = map<string, Doc>

  predicate Readable(files: Files, path: string) {
    path in files && files[path].Pdf?
  }

  /** One category of the configuration: a PDF cut into equal units. */
  datatype Category = Category(pdfPath: string, pagesPerUnit: nat)

  /** A review test: a PDF added whole after the last of its units. */
  datatype Review = Review(pdfPath: string, pagesPerUnit: nat, units: seq<int>)

  /** The configuration the merger reads; `categories` in dictionary order. */
  datatype Config = Config(categories: seq<(string, Category)>, mergeOrder: seq<string>,
                           totalUnits: int, reviews: seq<Review>)

  /** `config["categories"].get(name)`. */
  function Lookup(cats: seq<(string, Category)>, name: string): (r: Option<Category>)
    ensures r.None? <==> forall i | 0 <= i < |cats| :: cats[i].0 != name
    ensures r.Some? ==> (name, r.value) in cats
  {
    if |cats| == 0 then None
    else if cats[0].0 == name then Some(cats[0].1)
    else Lookup(cats[1..], name)
  }

  // ---------------------------------------------------------------------
  // Counters and log

  datatype LogEntry =
    | RangeExceeded(path: string, unit: nat)
    | PagesShort(path: string, unit: nat, available: nat)
    | ExtractFailed(path: string, unit: nat)
    | CategoryMissing(category: string)
    | CategoryFailed(unit: nat, category: string)
    | ReviewFailed(unit: nat)
    | NoPages(unit: nat)
    | SaveFailed(unit: nat)

  /** The `stats` dictionary. */
  datatype Stats = Stats(filesProcessed: nat, pagesMerged: nat, errors: nat, warnings: nat)

  /** What a step adds to the log and to the error and warning counters. */
  datatype Effect = Effect(log: seq<LogEntry>, warnings: nat, errors: nat)

  const Quiet := Effect([], 0, 0)

  function Then(a: Effect, b: Effect): Effect {
    Effect(a.log + b.log, a.warnings + b.warnings, a.errors + b.errors)
  }

  /** Everything the merger keeps: counters, log and output directory. */
  datatype MergerState = MergerState(stats: Stats, mergeLog: seq<LogEntry>, outputs: map<string, seq<PageId>>)

  function Record(st: MergerState, e: Effect): MergerState {
    st.(mergeLog := st.mergeLog + e.log,
        stats := st.stats.(errors := st.stats.errors + e.errors, warnings := st.stats.warnings + e.warnings))
  }

  lemma RecordThen(st: MergerState, a: Effect, b: Effect)
    ensures Record(Record(st, a), b) == Record(st, Then(a, b))
  {
    assert st.mergeLog + a.log + b.log == st.mergeLog + (a.log + b.log);
  }

  // ---------------------------------------------------------------------
  // calculate_page_range and extract_unit_pages

  /** `calculate_page_range`: the 0-based, end-exclusive page range of a
      unit (numbered from 1). */
  function PageRange(unit: nat, pagesPerUnit: nat): (nat, nat)
    requires unit >= 1
  {
    ((unit - 1) * pagesPerUnit, (unit - 1) * pagesPerUnit + pagesPerUnit)
  }

  /** Consecutive units have adjacent ranges of `pagesPerUnit` pages each,
      the first starting at page 0. */
  lemma {:induction false} RangesTile(unit: nat, pagesPerUnit: nat)
    requires unit >= 1
    ensures PageRange(1, pagesPerUnit).0 == 0
    ensures PageRange(unit, pagesPerUnit).1 == PageRange(unit + 1, pagesPerUnit).0
    ensures PageRange(unit, pagesPerUnit).1 - PageRange(unit, pagesPerUnit).0 == pagesPerUnit
    ensures PageRange(unit, pagesPerUnit).0 == (unit - 1) * pagesPerUnit
  {
  }

  /** The result of `extract_unit_pages` and what it logs. */
  datatype Extracted = Extracted(pages: Option<seq<PageId>>, effect: Effect)

  /** `extract_unit_pages` on the file at `path`. */
  function Extract(files: Files, path: string, unit: nat, pagesPerUnit: nat): (r: Extracted)
    requires unit >= 1
    ensures r.pages.None? <==>
      !Readable(files, path) || PageRange(unit, pagesPerUnit).0 >= |files[path].pages|
    ensures r.pages.None? ==> r.effect.errors == 1 && r.effect.warnings == 0
    ensures r.pages.Some? ==>
      var doc := files[path].pages;
      var (start, end) := PageRange(unit, pagesPerUnit);
      && r.pages.value == doc[start..if end > |doc| then |doc| else end]
      && r.effect.errors == 0
      && (r.effect.warnings == 1 <==> end > |doc|) && r.effect.warnings <= 1
    ensures |r.effect.log| == r.effect.errors + r.effect.warnings
  {
    if !Readable(files, path) then Extracted(None, Effect([ExtractFailed(path, unit)], 0, 1))
    else
      var doc := files[path].pages;
      var (start, end) := PageRange(unit, pagesPerUnit);
      if start >= |doc| then Extracted(None, Effect([RangeExceeded(path, unit)], 0, 1))
      else if end > |doc| then Extracted(Some(doc[start..]), Effect([PagesShort(path, unit, |doc| - start)], 1, 0))
      else Extracted(Some(doc[start..end]), Quiet)
  }

  /** The pages of units `1..n` that extraction returns, in unit order. */
  function UnitsPages(doc: seq<PageId>, pagesPerUnit: nat, n: nat): seq<PageId> {
    if n == 0 then []
    else
      var e := Extract(map["doc" := Pdf(doc)], "doc", n, pagesPerUnit);
      UnitsPages(doc, pagesPerUnit, n - 1) + (if e.pages.Some? then e.pages.value else [])
  }

  /** Units 1..n cut the document into consecutive pieces: together they
      are its first `n * pagesPerUnit` pages (or all of it), in order. */
  lemma {:induction false} UnitsCoverDocument(doc: seq<PageId>, pagesPerUnit: nat, n: nat)
    ensures UnitsPages(doc, pagesPerUnit, n) == doc[..if n * pagesPerUnit > |doc| then |doc| else n * pagesPerUnit]
  {
    if n > 0 {
      UnitsCoverDocument(doc, pagesPerUnit, n - 1);
      var (start, end) := PageRange(n, pagesPerUnit);
      assert start == (n - 1) * pagesPerUnit && end == n * pagesPerUnit;
      var before := if start > |doc| then |doc| else start;
      var after := if end > |doc| then |doc| else end;
      if start < |doc| {
        assert doc[..before] + doc[before..after] == doc[..after];
      } else {
        assert before == after;
      }
    }
  }

  // ---------------------------------------------------------------------
  // merge_unit_pdf

  /** What one category or review adds to a unit: pages, log, and whether
      it went well. */
  datatype Step = Step(pages: seq<PageId>, effect: Effect, ok: bool)

  function Join(a: Step, b: Step): Step {
    Step(a.pages + b.pages, Then(a.effect, b.effect), a.ok && b.ok)
  }

  /** The steps of `xs`, joined left to right. */
  function Fold<T>(xs: seq<T>, f: T -> Step): Step {
    if |xs| == 0 then Step([], Quiet, true)
    else Join(Fold(xs[..|xs| - 1], f), f(xs[|xs| - 1]))
  }

  lemma FoldSnoc<T>(xs: seq<T>, x: T, f: T -> Step)
    ensures Fold(xs + [x], f) == Join(Fold(xs, f), f(x))
  {
    assert (xs + [x])[..|xs|] == xs;
  }

  /** The joined steps went well iff each of them did. */
  lemma {:induction false} FoldOk<T>(xs: seq<T>, f: T -> Step)
    ensures Fold(xs, f).ok <==> forall i | 0 <= i < |xs| :: f(xs[i]).ok
  {
    if |xs| != 0 {
      var init := xs[..|xs| - 1];
      assert forall i | 0 <= i < |init| :: init[i] == xs[i];
      FoldOk(init, f);
    }
  }

  /** The joined pages are the steps' pages in order. */
  lemma {:induction false} FoldPages<T>(xs: seq<T>, f: T -> Step, ys: seq<T>)
    ensures Fold(xs + ys, f).pages == Fold(xs, f).pages + Fold(ys, f).pages
    decreases |ys|
  {
    if |ys| == 0 {
      assert xs + ys == xs;
    } else {
      var init, y := ys[..|ys| - 1], ys[|ys| - 1];
      assert xs + ys == (xs + init) + [y];
      assert ys == init + [y];
      FoldPages(xs, f, init);
      FoldSnoc(xs + init, y, f);
      FoldSnoc(init, y, f);
    }
  }

  /** Steps that add no pages add no pages together. */
  lemma {:induction false} FoldNoPages<T>(xs: seq<T>, f: T -> Step)
    requires forall i | 0 <= i < |xs| :: f(xs[i]).pages == []
    ensures Fold(xs, f).pages == []
  {
    if |xs| != 0 {
      var init := xs[..|xs| - 1];
      assert forall i | 0 <= i < |init| :: init[i] == xs[i];
      FoldNoPages(init, f);
    }
  }

  /** One more round of a loop that runs the steps of `xs` in order and
      records their effects. */
  lemma FoldStep<T>(xs: seq<T>, i: nat, f: T -> Step, acc: Step, more: Step, st0: MergerState)
    requires i < |xs| && Fold(xs[..i], f) == acc && more == f(xs[i])
    ensures Fold(xs[..i + 1], f) == Join(acc, more)
    ensures Record(Record(st0, acc.effect), more.effect) == Record(st0, Then(acc.effect, more.effect))
  {
    assert xs[..i + 1] == xs[..i] + [xs[i]];
    FoldSnoc(xs[..i], xs[i], f);
    RecordThen(st0, acc.effect, more.effect);
  }

  /** One entry of `merge_order`: a missing category is skipped with a
      warning; an extraction that gives no pages fails the unit. */
  function CategoryOutcome(config: Config, files: Files, unit: nat, c: string): (s: Step)
    requires unit >= 1
    ensures Lookup(config.categories, c).Some? ==> (s.ok <==> s.pages != [])
    ensures Lookup(config.categories, c).None? ==> s.effect == Effect([CategoryMissing(c)], 1, 0) && s.ok
  {
    match Lookup(config.categories, c)
    case None => Step([], Effect([CategoryMissing(c)], 1, 0), true)
    case Some(cat) =>
      var e := Extract(files, cat.pdfPath, unit, cat.pagesPerUnit);
      if e.pages.Some? && e.pages.value != [] then Step(e.pages.value, e.effect, true)
      else Step([], Then(e.effect, Effect([CategoryFailed(unit, c)], 0, 0)), false)
  }

  function CategoryStep(config: Config, files: Files, unit: nat): string -> Step
    requires unit >= 1
  {
    (c: string) => CategoryOutcome(config, files, unit, c)
  }

  /** `max(units)`. */
  function MaxOf(xs: seq<int>): (m: int)
    requires xs != []
    ensures m in xs && forall i | 0 <= i < |xs| :: xs[i] <= m
  {
    if |xs| == 1 then xs[0]
    else
      var m := MaxOf(xs[1..]);
      assert forall i | 1 <= i < |xs| :: xs[i] == xs[1..][i - 1];
      if xs[0] >= m then xs[0] else m
  }

  /** The reviews `merge_unit_pdf` handles before `max(review["units"])`
      raises ValueError on an empty list, which nothing catches: the index
      of the first review without units, or `|reviews|` when every review
      has some. (`pdfusion/config.py` builds `list(range(start, end + 1))`,
      which is empty for an answer such as "5-3".) */
  function RaiseAt(reviews: seq<Review>): (k: nat)
    ensures k <= |reviews|
    ensures forall i | 0 <= i < k :: reviews[i].units != []
    ensures k < |reviews| ==> reviews[k].units == []
  {
    if |reviews| == 0 || reviews[0].units == [] then 0
    else
      var k := RaiseAt(reviews[1..]);
      assert forall i | 1 <= i < k + 1 :: reviews[i] == reviews[1..][i - 1];
      k + 1
  }

  /** Whether merging any unit raises: some review lists no unit. */
  predicate Raises(config: Config) {
    RaiseAt(config.reviews) < |config.reviews|
  }

  /** Merging raises exactly when some review has an empty unit list. */
  lemma RaisesOnEmptyUnits(config: Config)
    ensures Raises(config) <==> exists i | 0 <= i < |config.reviews| :: config.reviews[i].units == []
  {
    var k := RaiseAt(config.reviews);
    if k < |config.reviews| {
      assert config.reviews[k].units == [];
    }
  }

  /** One review test: its whole PDF, at the last unit of its range only.
      (A review without units is never handled: the merge raises first, see
      `RaiseAt`.) */
  function ReviewOutcome(files: Files, unit: nat, r: Review): Step {
    if r.units == [] || unit != MaxOf(r.units) then Step([], Quiet, true)
    else if Readable(files, r.pdfPath) then Step(files[r.pdfPath].pages, Quiet, true)
    else Step([], Effect([ReviewFailed(unit)], 0, 0), false)
  }

  function ReviewStep(files: Files, unit: nat): Review -> Step {
    (r: Review) => ReviewOutcome(files, unit, r)
  }

  /** What `merge_unit_pdf` does for one unit; `raised` when it ends in the
      uncaught ValueError of an empty review range. */
  datatype UnitResult = UnitResult(pages: seq<PageId>, effect: Effect, written: bool, ok: bool, raised: bool)

  /** The categories in merge order, then the reviews in list order up to
      the first one that raises. */
  function Collect(config: Config, files: Files, unit: nat): Step
    requires unit >= 1
  {
    Join(Fold(config.mergeOrder, CategoryStep(config, files, unit)),
         Fold(config.reviews[..RaiseAt(config.reviews)], ReviewStep(files, unit)))
  }

  /** The end of `merge_unit_pdf`, once everything is collected: a raise
      leaves what was logged so far and writes nothing; no page means an
      error and no file; otherwise the file is written (when the directory
      takes it). */
  function UnitOf(s: Step, raised: bool, writable: bool, unit: nat): UnitResult {
    if raised then UnitResult(s.pages, s.effect, false, false, true)
    else if |s.pages| == 0 then UnitResult([], Then(s.effect, Effect([NoPages(unit)], 0, 1)), false, false, false)
    else if !writable then UnitResult(s.pages, Then(s.effect, Effect([SaveFailed(unit)], 0, 1)), false, false, false)
    else UnitResult(s.pages, s.effect, true, s.ok, false)
  }

  /** `merge_unit_pdf`: it raises iff some review has no units; otherwise
      the unit succeeds iff its file is written and every category and
      review went well. */
  function MergeUnit(config: Config, files: Files, writable: bool, unit: nat): (r: UnitResult)
    requires unit >= 1
    ensures r.raised == Raises(config)
    ensures r.pages == Collect(config, files, unit).pages
    ensures r.raised ==> r.effect == Collect(config, files, unit).effect
    ensures r.ok ==> r.written && r.pages != []
    ensures r.written <==> !r.raised && writable && r.pages != []
    ensures r.ok <==> r.written && Collect(config, files, unit).ok
    ensures r.effect.errors == Collect(config, files, unit).effect.errors + (if r.written || r.raised then 0 else 1)
  {
    UnitOf(Collect(config, files, unit), Raises(config), writable, unit)
  }

  /** `f"Unit{n:02d}.pdf"`. */
  function UnitName(unit: nat): string {
    "Unit" + ZeroPad2(unit) + ".pdf"
  }

  /** Distinct units write distinct files. */
  lemma UnitNameInjective(a: nat, b: nat)
    requires UnitName(a) == UnitName(b)
    ensures a == b
  {
    var na, nb := UnitName(a), UnitName(b);
    assert ZeroPad2(a) == na[4..|na| - 4];
    assert ZeroPad2(b) == nb[4..|nb| - 4];
    ZeroPad2Value(a);
    ZeroPad2Value(b);
  }

  /** The state after `merge_unit_pdf` for one unit. */
  function AfterUnit(st: MergerState, unit: nat, r: UnitResult): MergerState {
    var s := Record(st, r.effect);
    if r.written then
      s.(outputs := s.outputs[UnitName(unit) := r.pages],
         stats := s.stats.(filesProcessed := s.stats.filesProcessed + 1,
                           pagesMerged := s.stats.pagesMerged + |r.pages|))
    else s
  }

  /** A unit for which no review ends and every category is missing or
      yields nothing writes no file and, unless it raised first, counts one
      error more. */
  lemma EmptyUnitFails(config: Config, files: Files, writable: bool, unit: nat, st: MergerState)
    requires unit >= 1
    requires forall i | 0 <= i < |config.mergeOrder| :: CategoryStep(config, files, unit)(config.mergeOrder[i]).pages == []
    requires forall i | 0 <= i < |config.reviews| :: ReviewStep(files, unit)(config.reviews[i]).pages == []
    ensures var r := MergeUnit(config, files, writable, unit);
            && !r.ok && !r.written
            && AfterUnit(st, unit, r).outputs == st.outputs
            && (r.raised || AfterUnit(st, unit, r).stats.errors > st.stats.errors)
  {
    var handled := config.reviews[..RaiseAt(config.reviews)];
    assert forall i | 0 <= i < |handled| :: handled[i] == config.reviews[i];
    FoldNoPages(config.mergeOrder, CategoryStep(config, files, unit));
    FoldNoPages(handled, ReviewStep(files, unit));
  }

  /** A review adds pages only to the unit that is the largest of its units. */
  lemma ReviewOnlyAtLastUnit(files: Files, unit: nat, r: Review)
    requires ReviewStep(files, unit)(r).pages != []
    ensures unit == MaxOf(r.units) && Readable(files, r.pdfPath)
    ensures ReviewStep(files, unit)(r).pages == files[r.pdfPath].pages
  {
  }

  // ---------------------------------------------------------------------
  // validate_pdf_files

  /** The errors and warnings a check finds. */
  datatype Check = Check(errors: nat, warnings: nat)

  function Add(a: Check, b: Check): Check {
    Check(a.errors + b.errors, a.warnings + b.warnings)
  }

  /** The checks of the elements of `xs`, added up: no error in the sum
      iff no error in any of them. */
  function CheckAll<T>(xs: seq<T>, f: T -> Check): (c: Check)
    ensures c.errors == 0 <==> forall i | 0 <= i < |xs| :: f(xs[i]).errors == 0
  {
    if |xs| == 0 then Check(0, 0)
    else
      var init := xs[..|xs| - 1];
      assert forall i | 0 <= i < |init| :: init[i] == xs[i];
      Add(CheckAll(init, f), f(xs[|xs| - 1]))
  }

  /** One more round of a loop adding up the checks of `xs`. */
  lemma CheckStep<T>(xs: seq<T>, i: nat, f: T -> Check)
    requires i < |xs|
    ensures CheckAll(xs[..i + 1], f) == Add(CheckAll(xs[..i], f), f(xs[i]))
  {
    assert xs[..i + 1][..i] == xs[..i];
  }

  /** `pages // perUnit`: how many full units the pages make. */
  function FullUnits(pages: nat, perUnit: nat): nat
    requires perUnit > 0
    decreases pages
  {
    if pages < perUnit then 0 else 1 + FullUnits(pages - perUnit, perUnit)
  }

  /** The count of full units is Python's floor division: the largest `q`
      with `q * perUnit <= pages`. */
  lemma {:induction false} FullUnitsDiv(pages: nat, perUnit: nat)
    requires perUnit > 0
    ensures FullUnits(pages, perUnit) * perUnit <= pages < (FullUnits(pages, perUnit) + 1) * perUnit
    decreases pages
  {
    if pages >= perUnit {
      FullUnitsDiv(pages - perUnit, perUnit);
      var q := FullUnits(pages - perUnit, perUnit);
      assert (q + 1) * perUnit == q * perUnit + perUnit;
      assert (q + 2) * perUnit == (q + 1) * perUnit + perUnit;
    }
  }

  /** A category file that is missing, unreadable or cut into units of no
      pages (the division raises) is an error; one with fewer full units
      than `total_units` is a warning. */
  function CategoryCheck(files: Files, totalUnits: int, cat: Category): Check {
    if !Readable(files, cat.pdfPath) || cat.pagesPerUnit == 0 then Check(1, 0)
    else if FullUnits(|files[cat.pdfPath].pages|, cat.pagesPerUnit) < totalUnits then Check(0, 1)
    else Check(0, 0)
  }

  /** How many of `units` lie beyond `maxUnits`: none iff all are within. */
  function UnitsBeyond(units: seq<int>, maxUnits: nat): (n: nat)
    ensures n <= |units|
    ensures n == 0 <==> forall i | 0 <= i < |units| :: units[i] <= maxUnits
  {
    if |units| == 0 then 0
    else
      var init := units[..|units| - 1];
      assert forall i | 0 <= i < |init| :: init[i] == units[i];
      UnitsBeyond(init, maxUnits) + (if units[|units| - 1] > maxUnits then 1 else 0)
  }

  /** A review without a path, or with a missing or unreadable file, is an
      error; each of its units beyond the file's full units is a warning. */
  function ReviewCheck(files: Files, r: Review): Check {
    if r.pdfPath == [] || !Readable(files, r.pdfPath) || r.pagesPerUnit == 0 then Check(1, 0)
    else Check(0, UnitsBeyond(r.units, FullUnits(|files[r.pdfPath].pages|, r.pagesPerUnit)))
  }

  function CategoryChecks(files: Files, totalUnits: int): ((string, Category)) -> Check {
    (e: (string, Category)) => CategoryCheck(files, totalUnits, e.1)
  }

  function ReviewChecks(files: Files): Review -> Check {
    (r: Review) => ReviewCheck(files, r)
  }

  /** Everything `validate_pdf_files` finds. */
  function Validation(config: Config, files: Files): Check {
    Add(CheckAll(config.categories, CategoryChecks(files, config.totalUnits)),
        CheckAll(config.reviews, ReviewChecks(files)))
  }

  /** The state after `validate_pdf_files`: only the counters change. */
  function Validated(st: MergerState, config: Config, files: Files): MergerState {
    var v := Validation(config, files);
    st.(stats := st.stats.(errors := st.stats.errors + v.errors, warnings := st.stats.warnings + v.warnings))
  }

  /** A category file is usable: it exists, reads, and its units have pages. */
  predicate CategoryUsable(files: Files, cat: Category) {
    Readable(files, cat.pdfPath) && cat.pagesPerUnit > 0
  }

  predicate ReviewUsable(files: Files, r: Review) {
    r.pdfPath != [] && Readable(files, r.pdfPath) && r.pagesPerUnit > 0
  }

  lemma CategoriesPass(files: Files, totalUnits: int, cats: seq<(string, Category)>)
    ensures CheckAll(cats, CategoryChecks(files, totalUnits)).errors == 0 <==>
            forall i | 0 <= i < |cats| :: CategoryUsable(files, cats[i].1)
  {
    var f := CategoryChecks(files, totalUnits);
    forall i | 0 <= i < |cats| ensures f(cats[i]).errors == 0 <==> CategoryUsable(files, cats[i].1) {
    }
  }

  lemma ReviewsPass(files: Files, reviews: seq<Review>)
    ensures CheckAll(reviews, ReviewChecks(files)).errors == 0 <==>
            forall i | 0 <= i < |reviews| :: ReviewUsable(files, reviews[i])
  {
    var f := ReviewChecks(files);
    forall i | 0 <= i < |reviews| ensures f(reviews[i]).errors == 0 <==> ReviewUsable(files, reviews[i]) {
    }
  }

  /** Validation passes exactly when every category and review file is
      usable: short files and out-of-range review units only warn. */
  lemma ValidationPasses(config: Config, files: Files)
    ensures Validation(config, files).errors == 0 ==>
            forall i | 0 <= i < |config.categories| :: CategoryUsable(files, config.categories[i].1)
    ensures Validation(config, files).errors == 0 ==>
            forall i | 0 <= i < |config.reviews| :: ReviewUsable(files, config.reviews[i])
    ensures ((forall i | 0 <= i < |config.categories| :: CategoryUsable(files, config.categories[i].1)) &&
             (forall i | 0 <= i < |config.reviews| :: ReviewUsable(files, config.reviews[i])))
            ==> Validation(config, files).errors == 0
  {
    CategoriesPass(files, config.totalUnits, config.categories);
    ReviewsPass(files, config.reviews);
  }

  /** Validation does not notice a review without units: a usable one with
      an empty list neither errs nor warns, so the merge goes ahead and
      raises. */
  lemma ValidationMissesEmptyUnits(files: Files, r: Review)
    requires ReviewUsable(files, r) && r.units == []
    ensures ReviewCheck(files, r) == Check(0, 0)
  {
  }

  lemma MulMono(a: int, b: int, c: int)
    requires a <= b && c >= 0
    ensures a * c <= b * c
  {
  }

  /** A usable category warns iff its file has fewer pages than
      `total_units` full units. */
  lemma CategoryWarning(files: Files, totalUnits: int, cat: Category)
    requires CategoryUsable(files, cat)
    ensures CategoryCheck(files, totalUnits, cat).warnings == 1 <==>
            |files[cat.pdfPath].pages| < totalUnits * cat.pagesPerUnit
    ensures CategoryCheck(files, totalUnits, cat).errors == 0
  {
    var n, p := |files[cat.pdfPath].pages|, cat.pagesPerUnit;
    var q := FullUnits(n, p);
    FullUnitsDiv(n, p);
    if q < totalUnits {
      MulMono(q + 1, totalUnits, p);
    } else {
      MulMono(totalUnits, q, p);
    }
  }

  // ---------------------------------------------------------------------
  // merge_all_units and merge_all_units_to_one

  /** The state after `merge_unit_pdf` for units `1..|rs|` in order, unit
      `k + 1` having had the result `rs[k]`. */
  function AfterAll(st: MergerState, rs: seq<UnitResult>): MergerState {
    if |rs| == 0 then st
    else AfterUnit(AfterAll(st, rs[..|rs| - 1]), |rs|, rs[|rs| - 1])
  }

  lemma AfterAllSnoc(st: MergerState, rs: seq<UnitResult>, r: UnitResult)
    ensures AfterAll(st, rs + [r]) == AfterUnit(AfterAll(st, rs), |rs| + 1, r)
  {
    assert (rs + [r])[..|rs|] == rs;
  }

  /** `[f(0), ..., f(n - 1)]`. */
  function Table(f: nat -> UnitResult, n: nat): (rs: seq<UnitResult>)
    ensures |rs| == n
  {
    if n == 0 then [] else Table(f, n - 1) + [f(n - 1)]
  }

  /** The result of unit `k + 1`. */
  function UnitsOf(config: Config, files: Files, writable: bool): nat -> UnitResult {
    (k: nat) => MergeUnit(config, files, writable, k + 1)
  }

  /** The results of units `1..n`. */
  function Results(config: Config, files: Files, writable: bool, n: nat): seq<UnitResult> {
    Table(UnitsOf(config, files, writable), n)
  }

  /** Entry `k` of the results is the result of unit `k + 1`. */
  lemma {:induction false} ResultsAt(config: Config, files: Files, writable: bool, n: nat, k: nat)
    requires k < n
    ensures Results(config, files, writable, n)[k] == MergeUnit(config, files, writable, k + 1)
  {
    if k < n - 1 {
      ResultsAt(config, files, writable, n - 1, k);
    }
  }

  predicate AllOk(rs: seq<UnitResult>) {
    forall k | 0 <= k < |rs| :: rs[k].ok
  }

  /** How many of the units succeeded: all of them iff each did. */
  function Successes(rs: seq<UnitResult>): (k: nat)
    ensures k <= |rs|
    ensures k == |rs| <==> AllOk(rs)
  {
    if |rs| == 0 then 0
    else
      var init := rs[..|rs| - 1];
      assert forall i | 0 <= i < |init| :: init[i] == rs[i];
      Successes(init) + (if rs[|rs| - 1].ok then 1 else 0)
  }

  lemma SuccessesSnoc(rs: seq<UnitResult>, r: UnitResult)
    ensures Successes(rs + [r]) == Successes(rs) + (if r.ok then 1 else 0)
  {
    assert (rs + [r])[..|rs|] == rs;
  }

  /** The number of units `range(1, total_units + 1)` goes through. */
  function UnitCount(totalUnits: int): (n: nat)
    ensures totalUnits >= 0 ==> n == totalUnits
    ensures totalUnits < 0 ==> n == 0
  {
    if totalUnits < 0 then 0 else totalUnits
  }

  /** After merging units `1..|rs|`, each unit that wrote its file finds it
      holding its pages: no later unit writes over it. */
  lemma {:induction false} UnitFilesWritten(st: MergerState, rs: seq<UnitResult>, u: nat)
    requires 1 <= u <= |rs| && rs[u - 1].written
    ensures var outs := AfterAll(st, rs).outputs;
            UnitName(u) in outs && outs[UnitName(u)] == rs[u - 1].pages
  {
    var n := |rs|;
    if u < n {
      var init := rs[..n - 1];
      assert init[u - 1] == rs[u - 1];
      UnitFilesWritten(st, init, u);
      if UnitName(n) == UnitName(u) {
        UnitNameInjective(n, u);
      }
    }
  }

  /** A file that is not the name of a merged unit is left as it was. */
  lemma {:induction false} OtherFilesKept(st: MergerState, rs: seq<UnitResult>, name: string)
    requires forall u | 1 <= u <= |rs| :: UnitName(u) != name
    ensures name in AfterAll(st, rs).outputs <==> name in st.outputs
    ensures name in st.outputs ==> AfterAll(st, rs).outputs[name] == st.outputs[name]
  {
    if |rs| != 0 {
      OtherFilesKept(st, rs[..|rs| - 1], name);
    }
  }

  /** The counters and the log only grow while units are merged. */
  lemma {:induction false} CountersGrow(st: MergerState, rs: seq<UnitResult>)
    ensures var s := AfterAll(st, rs).stats;
            && s.errors >= st.stats.errors && s.warnings >= st.stats.warnings
            && s.pagesMerged >= st.stats.pagesMerged && s.filesProcessed >= st.stats.filesProcessed
            && |AfterAll(st, rs).mergeLog| >= |st.mergeLog|
  {
    if |rs| != 0 {
      CountersGrow(st, rs[..|rs| - 1]);
    }
  }

  /** The pages of the units that wrote their file, in unit order. */
  function WrittenPages(rs: seq<UnitResult>): seq<PageId> {
    if |rs| == 0 then []
    else WrittenPages(rs[..|rs| - 1]) + (if rs[|rs| - 1].written then rs[|rs| - 1].pages else [])
  }

  /** The unit files of `1..n` that exist, concatenated in unit order. */
  function Combined(outputs: map<string, seq<PageId>>, n: nat): seq<PageId> {
    if n == 0 then []
    else Combined(outputs, n - 1) + (if UnitName(n) in outputs then outputs[UnitName(n)] else [])
  }

  /** The combination looks only at the files of units `1..n`. */
  lemma {:induction false} CombinedFrame(o1: map<string, seq<PageId>>, o2: map<string, seq<PageId>>, n: nat)
    requires forall u | 1 <= u <= n :: (UnitName(u) in o1 <==> UnitName(u) in o2)
    requires forall u | 1 <= u <= n && UnitName(u) in o1 :: o1[UnitName(u)] == o2[UnitName(u)]
    ensures Combined(o1, n) == Combined(o2, n)
  {
    if n != 0 {
      CombinedFrame(o1, o2, n - 1);
    }
  }

  /** The unit files of `1..|rs|` after the merge, in unit order: what each
      unit wrote, or else the file of that name the directory already held
      (left over from an earlier run). */
  function UnitFilesAfter(before: map<string, seq<PageId>>, rs: seq<UnitResult>): seq<PageId> {
    if |rs| == 0 then []
    else
      var n, r := |rs|, rs[|rs| - 1];
      UnitFilesAfter(before, rs[..n - 1]) +
        (if r.written then r.pages else if UnitName(n) in before then before[UnitName(n)] else [])
  }

  /** Combining units `1..|rs|` after merging them gives, unit by unit, the
      pages the unit wrote, or the older file for a unit that wrote none. */
  lemma {:induction false} CombinedAfterMerge(st: MergerState, rs: seq<UnitResult>)
    ensures Combined(AfterAll(st, rs).outputs, |rs|) == UnitFilesAfter(st.outputs, rs)
  {
    var n := |rs|;
    if n != 0 {
      var init, r := rs[..n - 1], rs[n - 1];
      var before := AfterAll(st, init).outputs;
      var after := AfterAll(st, rs).outputs;
      CombinedAfterMerge(st, init);
      forall u | 1 <= u <= n - 1 ensures UnitName(u) != UnitName(n) {
        if UnitName(u) == UnitName(n) {
          UnitNameInjective(u, n);
        }
      }
      CombinedFrame(after, before, n - 1);
      OtherFilesKept(st, init, UnitName(n));
    }
  }

  /** Starting from a directory without unit files, the combined file is
      exactly the pages the units wrote, in unit order. */
  lemma {:induction false} CombinedFromEmpty(st: MergerState, rs: seq<UnitResult>)
    requires forall u | 1 <= u <= |rs| :: UnitName(u) !in st.outputs
    ensures Combined(AfterAll(st, rs).outputs, |rs|) == WrittenPages(rs)
  {
    CombinedAfterMerge(st, rs);
    FreshUnitFiles(st.outputs, rs);
  }

  lemma {:induction false} FreshUnitFiles(before: map<string, seq<PageId>>, rs: seq<UnitResult>)
    requires forall u | 1 <= u <= |rs| :: UnitName(u) !in before
    ensures UnitFilesAfter(before, rs) == WrittenPages(rs)
  {
    if |rs| != 0 {
      FreshUnitFiles(before, rs[..|rs| - 1]);
    }
  }

  /** A unit that fails this run still contributes the file an earlier run
      left: with "Unit01.pdf" holding page 7 and unit 1 writing nothing, the
      combined file is page 7. */
  lemma StaleUnitFileCombined(st: MergerState, r: UnitResult)
    requires st.outputs == map[UnitName(1) := [7]] && !r.written
    ensures Combined(AfterAll(st, [r]).outputs, 1) == [7]
    ensures WrittenPages([r]) == []
  {
    CombinedAfterMerge(st, [r]);
    assert [r][..0] == [];
  }

  class PdfMerger {
    var stats: Stats
    var mergeLog: seq<LogEntry>
    /** The output directory: file name to pages. */
    var outputs: map<string, seq<PageId>>
    /** Whether files can be written into the output directory. */
    const writable: bool

    function State(): MergerState
      reads this
    {
      MergerState(stats, mergeLog, outputs)
    }

    /** The output directory is created when missing and kept as it is
        otherwise: `existing` is what it already holds. */
    constructor (writable: bool, existing: map<string, seq<PageId>>)
      ensures State() == MergerState(Stats(0, 0, 0, 0), [], existing)
      ensures this.writable == writable
    {
      stats := Stats(0, 0, 0, 0);
      mergeLog := [];
      outputs := existing;
      this.writable := writable;
    }

    /** `validate_pdf_files`: adds what it finds to the counters and passes
        iff it finds no error. */
    method ValidatePdfFiles(config: Config, files: Files) returns (ok: bool)
      modifies this
      ensures ok <==> Validation(config, files).errors == 0
      ensures State() == Validated(old(State()), config, files)
    {
      var found := CheckCategories(files, config.totalUnits, config.categories);
      var reviewsFound := CheckReviews(files, config.reviews);
      var total := Add(found, reviewsFound);
      stats := stats.(errors := stats.errors + total.errors, warnings := stats.warnings + total.warnings);
      ok := total.errors == 0;
    }

    /** `extract_unit_pages`. */
    method ExtractUnitPages(files: Files, path: string, unit: nat, pagesPerUnit: nat)
      returns (pages: Option<seq<PageId>>)
      requires unit >= 1
      modifies this
      ensures pages == Extract(files, path, unit, pagesPerUnit).pages
      ensures State() == Record(old(State()), Extract(files, path, unit, pagesPerUnit).effect)
    {
      if !Readable(files, path) {
        mergeLog := mergeLog + [ExtractFailed(path, unit)];
        stats := stats.(errors := stats.errors + 1);
        return None;
      }
      var doc := files[path].pages;
      var range := PageRange(unit, pagesPerUnit);
      var start, end := range.0, range.1;
      if start >= |doc| {
        mergeLog := mergeLog + [RangeExceeded(path, unit)];
        stats := stats.(errors := stats.errors + 1);
        return None;
      }
      if end > |doc| {
        mergeLog := mergeLog + [PagesShort(path, unit, |doc| - start)];
        stats := stats.(warnings := stats.warnings + 1);
        end := |doc|;
      }
      var out: seq<PageId> := [];
      for i := start to end
        invariant out == doc[start..i]
      {
        out := out + [doc[i]];
      }
      return Some(out);
    }

    /** One entry of the loop over `merge_order`. */
    method AddCategory(unit: nat, config: Config, files: Files, c: string) returns (pages: seq<PageId>, ok: bool)
      requires unit >= 1
      modifies this
      ensures pages == CategoryOutcome(config, files, unit, c).pages
      ensures ok == CategoryOutcome(config, files, unit, c).ok
      ensures State() == Record(old(State()), CategoryOutcome(config, files, unit, c).effect)
    {
      var found := Lookup(config.categories, c);
      if found.None? {
        mergeLog := mergeLog + [CategoryMissing(c)];
        stats := stats.(warnings := stats.warnings + 1);
        return [], true;
      }
      var cat := found.value;
      ghost var before := State();
      ghost var e := Extract(files, cat.pdfPath, unit, cat.pagesPerUnit);
      var extracted := ExtractUnitPages(files, cat.pdfPath, unit, cat.pagesPerUnit);
      if extracted.Some? && extracted.value != [] {
        return extracted.value, true;
      }
      mergeLog := mergeLog + [CategoryFailed(unit, c)];
      RecordThen(before, e.effect, Effect([CategoryFailed(unit, c)], 0, 0));
      return [], false;
    }

    /** The loop over `merge_order`. */
    method AddCategories(unit: nat, config: Config, files: Files) returns (pages: seq<PageId>, ok: bool)
      requires unit >= 1
      modifies this
      ensures pages == Fold(config.mergeOrder, CategoryStep(config, files, unit)).pages
      ensures ok == Fold(config.mergeOrder, CategoryStep(config, files, unit)).ok
      ensures State() == Record(old(State()), Fold(config.mergeOrder, CategoryStep(config, files, unit)).effect)
    {
      var order := config.mergeOrder;
      var f := CategoryStep(config, files, unit);
      pages, ok := [], true;
      ghost var s := Step([], Quiet, true);
      ghost var st0 := State();
      assert Record(st0, Quiet) == st0;
      for i := 0 to |order|
        invariant s == Fold(order[..i], f) && pages == s.pages && ok == s.ok
        invariant State() == Record(st0, s.effect)
      {
        ghost var more := CategoryOutcome(config, files, unit, order[i]);
        assert f(order[i]) == more;
        var p, o := AddCategory(unit, config, files, order[i]);
        FoldStep(order, i, f, s, more, st0);
        pages, ok := pages + p, ok && o;
        s := Join(s, more);
      }
      assert order[..|order|] == order;
    }

    /** One entry of the loop over `review_tests`; `raised` when the review
        has no units and `max` raises. */
    method AddReview(unit: nat, files: Files, r: Review) returns (pages: seq<PageId>, ok: bool, raised: bool)
      modifies this
      ensures raised <==> r.units == []
      ensures pages == ReviewOutcome(files, unit, r).pages
      ensures ok == ReviewOutcome(files, unit, r).ok
      ensures State() == Record(old(State()), ReviewOutcome(files, unit, r).effect)
    {
      pages, ok, raised := [], true, false;
      if r.units == [] {
        raised := true;
        return;
      }
      if unit == MaxOf(r.units) {
        if Readable(files, r.pdfPath) {
          pages := files[r.pdfPath].pages;
        } else {
          mergeLog := mergeLog + [ReviewFailed(unit)];
          ok := false;
        }
      }
    }

    /** The loop over `review_tests`, left at the first review that raises. */
    method AddReviews(unit: nat, config: Config, files: Files) returns (pages: seq<PageId>, ok: bool, raised: bool)
      modifies this
      ensures raised == Raises(config)
      ensures pages == Fold(config.reviews[..RaiseAt(config.reviews)], ReviewStep(files, unit)).pages
      ensures ok == Fold(config.reviews[..RaiseAt(config.reviews)], ReviewStep(files, unit)).ok
      ensures State() == Record(old(State()), Fold(config.reviews[..RaiseAt(config.reviews)], ReviewStep(files, unit)).effect)
    {
      var reviews := config.reviews;
      ghost var f := ReviewStep(files, unit);
      ghost var k := RaiseAt(reviews);
      pages, ok, raised := [], true, false;
      ghost var s := Step([], Quiet, true);
      ghost var st0 := State();
      assert Record(st0, Quiet) == st0;
      var i := 0;
      while i < |reviews|
        invariant i <= k
        invariant s == Fold(reviews[..i], f) && pages == s.pages && ok == s.ok
        invariant State() == Record(st0, s.effect)
      {
        var p, o, stop := NextReview(unit, files, reviews, i, s, st0);
        if stop {
          raised := true;
          return;
        }
        pages, ok := pages + p, ok && o;
        s := Join(s, f(reviews[i]));
        i := i + 1;
      }
      assert reviews[..|reviews|] == reviews;
    }

    /** One round of the loop over `review_tests`: review `i`, after the
        reviews before it whose steps joined make `s`. */
    method NextReview(unit: nat, files: Files, reviews: seq<Review>, i: nat, ghost s: Step, ghost st0: MergerState)
      returns (pages: seq<PageId>, ok: bool, raised: bool)
      requires i < |reviews| && i <= RaiseAt(reviews)
      requires s == Fold(reviews[..i], ReviewStep(files, unit)) && State() == Record(st0, s.effect)
      modifies this
      ensures raised <==> i == RaiseAt(reviews)
      ensures !raised ==> && pages == ReviewOutcome(files, unit, reviews[i]).pages
                          && ok == ReviewOutcome(files, unit, reviews[i]).ok
                          && Fold(reviews[..i + 1], ReviewStep(files, unit)) == Join(s, ReviewStep(files, unit)(reviews[i]))
                          && State() == Record(st0, Join(s, ReviewStep(files, unit)(reviews[i])).effect)
      ensures raised ==> State() == old(State())
    {
      ghost var f := ReviewStep(files, unit);
      ghost var more := ReviewOutcome(files, unit, reviews[i]);
      assert f(reviews[i]) == more;
      pages, ok, raised := AddReview(unit, files, reviews[i]);
      if !raised {
        FoldStep(reviews, i, f, s, more, st0);
      }
    }

    /** `merge_unit_pdf`; `raised` stands for the ValueError it lets out. */
    method MergeUnitPdf(unit: nat, config: Config, files: Files) returns (ok: bool, raised: bool)
      requires unit >= 1
      modifies this
      ensures raised == MergeUnit(config, files, writable, unit).raised
      ensures ok == MergeUnit(config, files, writable, unit).ok
      ensures State() == AfterUnit(old(State()), unit, MergeUnit(config, files, writable, unit))
    {
      ghost var st0 := State();
      ghost var s := Collect(config, files, unit);
      var pages, categoriesOk := AddCategories(unit, config, files);
      var reviewPages, reviewsOk;
      reviewPages, reviewsOk, raised := AddReviews(unit, config, files);
      var collected := pages + reviewPages;
      RecordThen(st0, Fold(config.mergeOrder, CategoryStep(config, files, unit)).effect,
                 Fold(config.reviews[..RaiseAt(config.reviews)], ReviewStep(files, unit)).effect);
      assert collected == s.pages && (categoriesOk && reviewsOk) == s.ok && State() == Record(st0, s.effect);
      assert MergeUnit(config, files, writable, unit) == UnitOf(s, raised, writable, unit);
      if raised {
        return false, true;
      }
      ok := Finish(unit, collected, categoriesOk && reviewsOk, s, st0);
    }

    /** The end of `merge_unit_pdf`: write the unit file, or log why not. */
    method Finish(unit: nat, collected: seq<PageId>, success: bool, ghost s: Step, ghost st0: MergerState)
      returns (ok: bool)
      requires collected == s.pages && success == s.ok && State() == Record(st0, s.effect)
      modifies this
      ensures ok == UnitOf(s, false, writable, unit).ok
      ensures State() == AfterUnit(st0, unit, UnitOf(s, false, writable, unit))
    {
      if |collected| == 0 {
        mergeLog := mergeLog + [NoPages(unit)];
        stats := stats.(errors := stats.errors + 1);
        RecordThen(st0, s.effect, Effect([NoPages(unit)], 0, 1));
        return false;
      }
      if !writable {
        mergeLog := mergeLog + [SaveFailed(unit)];
        stats := stats.(errors := stats.errors + 1);
        RecordThen(st0, s.effect, Effect([SaveFailed(unit)], 0, 1));
        return false;
      }
      outputs := outputs[UnitName(unit) := collected];
      stats := stats.(pagesMerged := stats.pagesMerged + |collected|, filesProcessed := stats.filesProcessed + 1);
      return success;
    }

    /** `merge_all_units`: validation first, then units `1..total_units`
        in order; succeeds iff validation passes and every unit does. When
        some review has no units, the first unit raises and the merge stops
        there (`raised`). */
    method MergeAllUnits(config: Config, files: Files) returns (ok: bool, raised: bool)
      modifies this
      ensures raised <==> Validation(config, files).errors == 0 && config.totalUnits >= 1 && Raises(config)
      ensures ok <==> && !raised
                      && Validation(config, files).errors == 0
                      && config.totalUnits >= 0
                      && AllOk(Results(config, files, writable, config.totalUnits))
      ensures Validation(config, files).errors != 0 ==> State() == Validated(old(State()), config, files)
      ensures Validation(config, files).errors == 0 ==>
              State() == AfterAll(Validated(old(State()), config, files),
                                  Results(config, files, writable, if raised then 1 else UnitCount(config.totalUnits)))
    {
      var valid := ValidatePdfFiles(config, files);
      if !valid {
        return false, false;
      }
      var total := config.totalUnits;
      var successCount;
      successCount, raised := MergeUnits(config, files, UnitCount(total));
      ok := !raised && successCount == total;
    }

    /** The loop of `merge_all_units` over units `1..n`, counting the units
        that succeed; a unit that raises ends it. */
    method MergeUnits(config: Config, files: Files, n: nat) returns (successCount: nat, raised: bool)
      modifies this
      ensures raised <==> n > 0 && Raises(config)
      ensures !raised ==> successCount == Successes(Results(config, files, writable, n))
      ensures State() == AfterAll(old(State()), Results(config, files, writable, if raised then 1 else n))
    {
      successCount, raised := 0, false;
      ghost var rs: seq<UnitResult> := [];
      ghost var f := UnitsOf(config, files, writable);
      for k := 0 to n
        invariant rs == Table(f, k)
        invariant k > 0 ==> !Raises(config)
        invariant State() == AfterAll(old(State()), rs)
        invariant successCount == Successes(rs)
      {
        var unitOk, stop := MergeNext(config, files, k, old(State()), rs);
        SuccessesSnoc(rs, f(k));
        rs := rs + [f(k)];
        if stop {
          return successCount, true;
        }
        if unitOk {
          successCount := successCount + 1;
        }
      }
    }

    /** One round of the loop in `merge_all_units`: unit `|rs| + 1` after
        the units whose results are `rs`. */
    method MergeNext(config: Config, files: Files, k: nat, ghost st0: MergerState, ghost rs: seq<UnitResult>)
      returns (ok: bool, raised: bool)
      requires |rs| == k && State() == AfterAll(st0, rs)
      modifies this
      ensures raised == UnitsOf(config, files, writable)(k).raised
      ensures ok == UnitsOf(config, files, writable)(k).ok
      ensures State() == AfterAll(st0, rs + [UnitsOf(config, files, writable)(k)])
    {
      ok, raised := MergeUnitPdf(k + 1, config, files);
      AfterAllSnoc(st0, rs, MergeUnit(config, files, writable, k + 1));
    }

    /** `merge_all_units_to_one`: the existing unit files of `1..total_units`
        concatenated into one file; an unwritable directory raises, which
        leaves everything as it was. */
    method MergeAllUnitsToOne(totalUnits: int, filename: string) returns (saved: bool)
      modifies this
      ensures saved == writable
      ensures saved ==> State() == old(State()).(outputs := old(outputs)[filename := Combined(old(outputs), UnitCount(totalUnits))])
      ensures !saved ==> State() == old(State())
    {
      var combined: seq<PageId> := [];
      var count := UnitCount(totalUnits);
      for num := 1 to count + 1
        invariant combined == Combined(outputs, num - 1)
      {
        var name := UnitName(num);
        if name in outputs {
          combined := combined + outputs[name];
        }
      }
      if !writable {
        return false;
      }
      outputs := outputs[filename := combined];
      return true;
    }
  }

  /** The loop of `validate_pdf_files` over the categories. */
  method CheckCategories(files: Files, totalUnits: int, cats: seq<(string, Category)>) returns (found: Check)
    ensures found == CheckAll(cats, CategoryChecks(files, totalUnits))
  {
    var f := CategoryChecks(files, totalUnits);
    found := Check(0, 0);
    for i := 0 to |cats|
      invariant found == CheckAll(cats[..i], f)
    {
      CheckStep(cats, i, f);
      found := Add(found, f(cats[i]));
    }
    assert cats[..|cats|] == cats;
  }

  /** The loop of `validate_pdf_files` over the review tests. */
  method CheckReviews(files: Files, reviews: seq<Review>) returns (found: Check)
    ensures found == CheckAll(reviews, ReviewChecks(files))
  {
    var f := ReviewChecks(files);
    found := Check(0, 0);
    for i := 0 to |reviews|
      invariant found == CheckAll(reviews[..i], f)
    {
      var r := reviews[i];
      var c := Check(1, 0);
      if r.pdfPath != [] && Readable(files, r.pdfPath) && r.pagesPerUnit != 0 {
        var beyond := CountUnitsBeyond(r.units, FullUnits(|files[r.pdfPath].pages|, r.pagesPerUnit));
        c := Check(0, beyond);
      }
      CheckStep(reviews, i, f);
      found := Add(found, c);
    }
    assert reviews[..|reviews|] == reviews;
  }

  /** The warnings of one review: counts its units beyond `maxUnits`. */
  method CountUnitsBeyond(units: seq<int>, maxUnits: nat) returns (n: nat)
    ensures n == UnitsBeyond(units, maxUnits)
  {
    n := 0;
    for i := 0 to |units|
      invariant n == UnitsBeyond(units[..i], maxUnits)
    {
      assert units[..i + 1][..i] == units[..i];
      if units[i] > maxUnits {
        n := n + 1;
      }
    }
    assert units[..|units|] == units;
  }
}
