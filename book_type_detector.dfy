/** `BookTypeDetector`: whether a book folder or PDF is of type LC
    (listening) or RC (reading), decided by a fixed cascade of string tests
    on its path, the names below it and the text of its first pages. The
    file system and the PDF reader are replaced by data: the names a
    listing returns and the page texts a reader extracts. */
module BookTypeDetector {
  import opened Strings
  import opened Regex
  import Paths

  datatype BookType = LC | RC

  /** `\bLC\b`, `\bL\.C\.`, `left\s*cover`, `왼쪽`, `좌측`, `_LC[_\s]`, `[_\s]LC[_\s]`. */
  function LcPatterns(): seq<Pattern> {
    [ [WordBoundary] + Word("lc") + [WordBoundary],
      [WordBoundary] + Word("l.c."),
      Phrase("left", "cover"),
      Word("왼쪽"),
      Word("좌측"),
      Word("_lc") + [OneOf("_", true)],
      [OneOf("_", true)] + Word("lc") + [OneOf("_", true)] ]
  }

  /** `\bRC\b`, `\bR\.C\.`, `right\s*cover`, `오른쪽`, `우측`, `_RC[_\s]`, `[_\s]RC[_\s]`. */
  function RcPatterns(): seq<Pattern> {
    [ [WordBoundary] + Word("rc") + [WordBoundary],
      [WordBoundary] + Word("r.c."),
      Phrase("right", "cover"),
      Word("오른쪽"),
      Word("우측"),
      Word("_rc") + [OneOf("_", true)],
      [OneOf("_", true)] + Word("rc") + [OneOf("_", true)] ]
  }

  /** The pattern test on one lower-cased text: LC patterns before RC ones. */
  function PatternType(s: string): Option<BookType> {
    if AnyFound(LcPatterns(), s) then Some(LC)
    else if AnyFound(RcPatterns(), s) then Some(RC)
    else None
  }

  // ---------------------------------------------------------------------
  // detect_from_path

  /** `detect_from_path`: "listening", then "reading", then the LC
      patterns, then the RC patterns, on the lower-cased path. */
  function DetectFromPath(path: string): Option<BookType> {
    var s := LowerStr(path);
    if Contains(s, "listening") then Some(LC)
    else if Contains(s, "reading") then Some(RC)
    else PatternType(s)
  }

  /** What the cascade decides, stated per outcome: a path is LC when it
      names listening, or names no reading and shows an LC pattern; it is
      RC when it names reading but not listening, or names neither and
      shows an RC pattern but no LC pattern. */
  lemma PathPrecedence(path: string)
    ensures var s := LowerStr(path);
            && (DetectFromPath(path) == Some(LC) <==>
                  Contains(s, "listening") || (!Contains(s, "reading") && AnyFound(LcPatterns(), s)))
            && (DetectFromPath(path) == Some(RC) <==>
                  !Contains(s, "listening") &&
                  (Contains(s, "reading") || (!AnyFound(LcPatterns(), s) && AnyFound(RcPatterns(), s))))
            && (DetectFromPath(path).None? <==>
                  !Contains(s, "listening") && !Contains(s, "reading")
                  && !AnyFound(LcPatterns(), s) && !AnyFound(RcPatterns(), s))
  {
  }

  /** The path test ignores letter case. */
  lemma PathCaseInsensitive(path: string)
    ensures DetectFromPath(LowerStr(path)) == DetectFromPath(path)
  {
    LowerStrIdempotent(path);
  }

  // ---------------------------------------------------------------------
  // detect_from_pdf_content

  /** A PDF as the reader sees it: the text of each page (`None` where a
      page has no text), or a file the reader fails on. */
  datatype PdfDoc = Readable(pages: seq<Option<string>>) | Unreadable

  /** `extract_text() or ""`, lower-cased. */
  function PageText(page: Option<string>): string {
    LowerStr(if page.Some? then page.value else "")
  }

  /** The type one page's text shows. */
  function PageType(): Option<string> -> Option<BookType> {
    page => PatternType(PageText(page))
  }

  /** `min(max_pages, len(reader.pages))` as a count of pages to look at:
      a negative minimum looks at none. */
  function PagesToCheck(maxPages: int, count: nat): (n: nat)
    ensures n <= count && (maxPages >= 0 ==> n <= maxPages)
    ensures n == count || n == maxPages || (maxPages < 0 && n == 0)
  {
    if maxPages <= 0 then 0 else if maxPages < count then maxPages else count
  }

  /** `detect_from_pdf_content`: the first of the first `maxPages` pages
      whose text shows an LC or RC pattern (LC first on each page); a file
      the reader fails on gives `None`. */
  function DetectFromContent(doc: PdfDoc, maxPages: int): (r: Option<BookType>)
    ensures doc.Unreadable? ==> r.None?
    ensures doc.Readable? ==>
      var n := PagesToCheck(maxPages, |doc.pages|);
      r.None? <==> forall j | 0 <= j < n :: PageType()(doc.pages[j]).None?
  {
    match doc
    case Unreadable => None
    case Readable(pages) =>
      var n := PagesToCheck(maxPages, |pages|);
      FirstTypedPrefix(pages, n, PageType());
      FirstTyped(pages[..n], PageType())
  }

  /** A type found in the content is that of the first page, among those
      looked at, whose text shows one. */
  lemma ContentFirstPage(doc: PdfDoc, maxPages: int)
    requires DetectFromContent(doc, maxPages).Some?
    ensures var pages := doc.pages[..PagesToCheck(maxPages, |doc.pages|)];
            exists j | 0 <= j < |pages| :: FirstTypedAt(pages, PageType(), j)
              && PageType()(pages[j]) == DetectFromContent(doc, maxPages)
  {
    FirstTypedFirst(doc.pages[..PagesToCheck(maxPages, |doc.pages|)], PageType());
  }

  /** Pages past the first `maxPages` are never looked at. */
  lemma ContentPrefix(pages: seq<Option<string>>, more: seq<Option<string>>, maxPages: nat)
    requires maxPages <= |pages|
    ensures DetectFromContent(Readable(pages + more), maxPages) == DetectFromContent(Readable(pages), maxPages)
  {
    assert (pages + more)[..maxPages] == pages[..maxPages];
  }

  /** The first of `xs` for which `f` gives a type decides it. */
  function FirstTyped<T>(xs: seq<T>, f: T -> Option<BookType>): (r: Option<BookType>)
    ensures r.None? <==> forall i | 0 <= i < |xs| :: f(xs[i]).None?
  {
    if |xs| == 0 then None
    else if f(xs[0]).Some? then f(xs[0])
    else FirstTyped(xs[1..], f)
  }

  /** The first `n` elements give no type exactly when none of them does. */
  lemma FirstTypedPrefix<T>(xs: seq<T>, n: nat, f: T -> Option<BookType>)
    requires n <= |xs|
    ensures FirstTyped(xs[..n], f).None? <==> forall j | 0 <= j < n :: f(xs[j]).None?
  {
    assert forall j | 0 <= j < n :: xs[..n][j] == xs[j];
  }

  /** `xs[i]` is the first element of `xs` for which `f` gives a type. */
  ghost predicate FirstTypedAt<T>(xs: seq<T>, f: T -> Option<BookType>, i: nat) {
    && i < |xs| && f(xs[i]).Some?
    && forall j | 0 <= j < i :: f(xs[j]).None?
  }

  /** A type found is that of the first element giving one. */
  lemma {:induction false} FirstTypedFirst<T>(xs: seq<T>, f: T -> Option<BookType>)
    requires FirstTyped(xs, f).Some?
    ensures exists i | 0 <= i < |xs| :: FirstTypedAt(xs, f, i) && f(xs[i]) == FirstTyped(xs, f)
  {
    if f(xs[0]).Some? {
      assert FirstTypedAt(xs, f, 0);
    } else {
      FirstTypedFirst(xs[1..], f);
      var i :| 0 <= i < |xs[1..]| && FirstTypedAt(xs[1..], f, i) && f(xs[1..][i]) == FirstTyped(xs[1..], f);
      assert FirstTypedAt(xs, f, i + 1);
    }
  }

  // ---------------------------------------------------------------------
  // detect_from_directory

  /** A PDF found under a directory: its path and its content. */
  datatype PdfFile = PdfFile(path: string, doc: PdfDoc)

  /** What a directory holds: the paths of its subdirectories and of every
      PDF below it, in listing order. */
  datatype Listing = Listing(subdirs: seq<string>, pdfs: seq<PdfFile>)

  function ByPath(): string -> Option<BookType> {
    p => DetectFromPath(p)
  }

  function Itself(): Option<BookType> -> Option<BookType> {
    t => t
  }

  function ByFileName(): PdfFile -> Option<BookType> {
    (f: PdfFile) => DetectFromPath(f.path)
  }

  function ByContent(): PdfFile -> Option<BookType> {
    (f: PdfFile) => DetectFromContent(f.doc, 3)
  }

  /** Some PDF's lower-cased name contains both words. */
  predicate AnyNameHas(pdfs: seq<PdfFile>, a: string, b: string) {
    exists i | 0 <= i < |pdfs| :: NameHas(pdfs[i], a, b)
  }

  predicate NameHas(f: PdfFile, a: string, b: string) {
    var name := LowerStr(Paths.Name(f.path));
    Contains(name, a) && Contains(name, b)
  }

  /** The file-type heuristic: a translation or unscramble sheet means RC;
      otherwise a word test or word list means LC. */
  function FileTypeHeuristic(pdfs: seq<PdfFile>): (r: Option<BookType>)
    ensures r == Some(RC) <==> AnyNameHas(pdfs, "translation", "sheet") || AnyNameHas(pdfs, "unscramble", "sheet")
    ensures r == Some(LC) ==> !AnyNameHas(pdfs, "translation", "sheet") && !AnyNameHas(pdfs, "unscramble", "sheet")
    ensures r == Some(LC) <==>
      && !AnyNameHas(pdfs, "translation", "sheet") && !AnyNameHas(pdfs, "unscramble", "sheet")
      && (AnyNameHas(pdfs, "word", "test") || AnyNameHas(pdfs, "word", "list"))
  {
    if AnyNameHas(pdfs, "translation", "sheet") || AnyNameHas(pdfs, "unscramble", "sheet") then Some(RC)
    else if AnyNameHas(pdfs, "word", "test") || AnyNameHas(pdfs, "word", "list") then Some(LC)
    else None
  }

  /** The stages of `detect_from_directory`, in the order they are tried. */
  function DirectoryStages(dir: string, listing: Listing): seq<Option<BookType>> {
    [ ByPath()(dir),
      FirstTyped(listing.subdirs, ByPath()),
      FirstTyped(Take(listing.pdfs, 10), ByFileName()),
      FileTypeHeuristic(listing.pdfs),
      FirstTyped(Take(listing.pdfs, 3), ByContent()) ]
  }

  /** `xs[:n]`. */
  function Take<T>(xs: seq<T>, n: nat): (r: seq<T>)
    ensures |r| <= n && |r| <= |xs| && r == xs[..|r|]
    ensures |xs| >= n ==> |r| == n
    ensures |xs| < n ==> r == xs
  {
    if |xs| <= n then xs else xs[..n]
  }

  /** `detect_from_directory`: the first stage that gives a type. */
  function DetectFromDirectory(dir: string, listing: Listing): (r: Option<BookType>)
    ensures r.None? <==> forall k | 0 <= k < |DirectoryStages(dir, listing)| :: DirectoryStages(dir, listing)[k].None?
  {
    FirstTyped(DirectoryStages(dir, listing), Itself())
  }

  /** A type found is the one of the earliest stage that finds one. */
  lemma DirectoryFirstStage(dir: string, listing: Listing)
    requires DetectFromDirectory(dir, listing).Some?
    ensures var stages := DirectoryStages(dir, listing);
            exists k | 0 <= k < |stages| :: DetectFromDirectory(dir, listing) == stages[k]
              && forall l | 0 <= l < k :: stages[l].None?
  {
    var stages := DirectoryStages(dir, listing);
    FirstTypedFirst(stages, Itself());
    var k :| 0 <= k < |stages| && FirstTypedAt(stages, Itself(), k) && Itself()(stages[k]) == FirstTyped(stages, Itself());
    assert forall l | 0 <= l < k :: stages[l].None? by {
      forall l | 0 <= l < k ensures stages[l].None? {
        assert Itself()(stages[l]).None?;
      }
    }
  }

  /** Only the first ten PDF names and the first three PDF contents are
      consulted: the later PDFs count only through the name heuristic. */
  lemma DirectoryLooksAtFewPdfs(dir: string, listing: Listing, extra: PdfFile)
    requires |listing.pdfs| >= 10
    requires !NameHas(extra, "translation", "sheet") && !NameHas(extra, "unscramble", "sheet")
    requires !NameHas(extra, "word", "test") && !NameHas(extra, "word", "list")
    ensures DetectFromDirectory(dir, Listing(listing.subdirs, listing.pdfs + [extra]))
            == DetectFromDirectory(dir, listing)
  {
    var more := listing.pdfs + [extra];
    assert Take(more, 10) == Take(listing.pdfs, 10);
    assert Take(more, 3) == Take(listing.pdfs, 3);
    NamesAppend(listing.pdfs, extra, "translation", "sheet");
    NamesAppend(listing.pdfs, extra, "unscramble", "sheet");
    NamesAppend(listing.pdfs, extra, "word", "test");
    NamesAppend(listing.pdfs, extra, "word", "list");
    assert FileTypeHeuristic(more) == FileTypeHeuristic(listing.pdfs);
    assert DirectoryStages(dir, Listing(listing.subdirs, more)) == DirectoryStages(dir, listing);
  }

  /** A PDF whose name lacks a word pair adds no match for it. */
  lemma NamesAppend(pdfs: seq<PdfFile>, extra: PdfFile, a: string, b: string)
    requires !NameHas(extra, a, b)
    ensures AnyNameHas(pdfs + [extra], a, b) == AnyNameHas(pdfs, a, b)
  {
    var more := pdfs + [extra];
    if AnyNameHas(more, a, b) {
      var i :| 0 <= i < |more| && NameHas(more[i], a, b);
      assert i < |pdfs| && more[i] == pdfs[i];
    }
    if AnyNameHas(pdfs, a, b) {
      var i :| 0 <= i < |pdfs| && NameHas(pdfs[i], a, b);
      assert more[i] == pdfs[i];
    }
  }

  // ---------------------------------------------------------------------
  // detect

  datatype Method = PathMethod | DirectoryMethod | ContentMethod

  /** `{'type': ..., 'method': ...}`. */
  datatype Detection = Detection(bookType: Option<BookType>, how: Option<Method>)

  /** `detect`: the path itself; then, for a directory, its listing; then,
      for a `.pdf` file, its content. */
  function Detect(path: string, isDir: bool, listing: Listing, doc: PdfDoc): (r: Detection)
    ensures r.bookType.None? <==> r.how.None?
    ensures r.how == Some(PathMethod) <==> DetectFromPath(path).Some?
    ensures r.how == Some(DirectoryMethod) ==> isDir && DetectFromDirectory(path, listing).Some?
    ensures r.how == Some(ContentMethod) ==> LowerStr(Paths.Suffix(path)) == ".pdf"
    ensures r.how == Some(PathMethod) ==> r.bookType == DetectFromPath(path)
    ensures r.how == Some(DirectoryMethod) ==> r.bookType == DetectFromDirectory(path, listing)
    ensures r.how == Some(ContentMethod) ==> r.bookType == DetectFromContent(doc, 3)
  {
    var byPath := DetectFromPath(path);
    if byPath.Some? then Detection(byPath, Some(PathMethod))
    else
      var byDir := if isDir then DetectFromDirectory(path, listing) else None;
      if byDir.Some? then Detection(byDir, Some(DirectoryMethod))
      else
        var byContent := if LowerStr(Paths.Suffix(path)) == ".pdf" then DetectFromContent(doc, 3) else None;
        if byContent.Some? then Detection(byContent, Some(ContentMethod))
        else Detection(None, None)
  }

  /** A directory is never decided by the directory stage through its own
      name: that name is the path, which is tried first. */
  lemma DirectoryAfterPath(path: string, listing: Listing, doc: PdfDoc)
    ensures Detect(path, true, listing, doc).how == Some(DirectoryMethod) ==>
            DirectoryStages(path, listing)[0].None?
  {
  }
}
