/** `LevelConfig`: the level of a book folder, the number in a book's name,
    which zip members and which PDF files belong to a level for a book of
    type LC (listening) or RC (reading), and the table of per-level rules. */
module LevelConfig {
  import opened Strings
  import opened Regex
  import opened Seqs
  import Grouping

  // ---------------------------------------------------------------------
  // Level and book number

  /** `level\s*(\d+)`, `_l(\d+)_`, `[_\s]l(\d+)[_\s]`, `\bl(\d+)\b`, `레벨\s*(\d+)`. */
  function LevelPatterns(): seq<Pattern> {
    [ Word("level") + [Spaces, Digits],
      Word("_l") + [Digits, Lit('_')],
      [OneOf("_", true), Lit('l'), Digits, OneOf("_", true)],
      [WordBoundary, Lit('l'), Digits, WordBoundary],
      Word("레벨") + [Spaces, Digits] ]
  }

  /** `reading\s+(\d+)`, `listening\s+(\d+)`, `\b(\d+)\s*[_\s]`, `[_\s](\d+)[_\s]`. */
  function NumberPatterns(): seq<Pattern> {
    [ Word("reading") + [Spaces1, Digits],
      Word("listening") + [Spaces1, Digits],
      [WordBoundary, Digits, Spaces, OneOf("_", true)],
      [OneOf("_", true), Digits, OneOf("_", true)] ]
  }

  /** A pattern whose only group is `(\d+)` captures a non-empty run of digits. */
  lemma DigitsGroup(p: Pattern, gs: seq<string>)
    requires Captures(p) == [Digits] && GroupsFit(p, gs)
    ensures |gs| == 1 && AllDigits(gs[0]) && gs[0] != []
  {
    DigitGroup(Digits, gs[0]);
  }

  lemma LevelPatternsCapture(i: nat)
    requires i < |LevelPatterns()|
    ensures Captures(LevelPatterns()[i]) == [Digits]
  {
    var ps := LevelPatterns();
    var a: Pattern, b: Pattern;
    if i == 0 {
      a, b := Word("level") + [Spaces], [];
    } else if i == 1 {
      a, b := Word("_l"), [Lit('_')];
    } else if i == 2 {
      a, b := [OneOf("_", true), Lit('l')], [OneOf("_", true)];
    } else if i == 3 {
      a, b := [WordBoundary, Lit('l')], [WordBoundary];
    } else {
      a, b := Word("레벨") + [Spaces], [];
    }
    assert ps[i] == a + [Digits] + b;
    OneCapture(a, Digits, b);
  }

  lemma NumberPatternsCapture(i: nat)
    requires i < |NumberPatterns()|
    ensures Captures(NumberPatterns()[i]) == [Digits]
  {
    var ps := NumberPatterns();
    var a: Pattern, b: Pattern;
    if i == 0 {
      a, b := Word("reading") + [Spaces1], [];
    } else if i == 1 {
      a, b := Word("listening") + [Spaces1], [];
    } else if i == 2 {
      a, b := [WordBoundary], [Spaces, OneOf("_", true)];
    } else {
      a, b := [OneOf("_", true)], [OneOf("_", true)];
    }
    assert ps[i] == a + [Digits] + b;
    OneCapture(a, Digits, b);
  }

  /** `detect_level`: "Level " followed by the digits the first level
      pattern found in the lower-cased path captures, or `None`. */
  function DetectLevel(path: string): (r: Option<string>)
    ensures r.None? <==> !AnyFound(LevelPatterns(), LowerStr(path))
    ensures r.Some? ==> |r.value| > 6 && r.value[..6] == "Level " && AllDigits(r.value[6..])
  {
    match FirstSearch(LevelPatterns(), LowerStr(path))
    case None => None
    case Some((i, m)) =>
      LevelPatternsCapture(i);
      DigitsGroup(LevelPatterns()[i], m.groups);
      assert ("Level " + m.groups[0])[6..] == m.groups[0];
      Some("Level " + m.groups[0])
  }

  /** The level comes from the earliest pattern in the list that is found. */
  lemma DetectLevelFirst(path: string, i: nat)
    requires i < |LevelPatterns()| && Found(LevelPatterns()[i], LowerStr(path))
    requires forall j | 0 <= j < i :: !Found(LevelPatterns()[j], LowerStr(path))
    ensures var g := Search(LevelPatterns()[i], LowerStr(path)).value.groups;
            |g| == 1 && AllDigits(g[0]) && DetectLevel(path) == Some("Level " + g[0])
  {
    var r := FirstSearch(LevelPatterns(), LowerStr(path));
    assert AnyFound(LevelPatterns(), LowerStr(path));
    assert r.value.0 == i;
    LevelPatternsCapture(i);
    DigitsGroup(LevelPatterns()[i], r.value.1.groups);
  }

  /** `extract_book_number`: the number the first number pattern found in
      the path captures, or `None`. */
  function ExtractBookNumber(path: string): (r: Option<nat>)
    ensures r.None? <==> !AnyFound(NumberPatterns(), path)
  {
    match FirstSearch(NumberPatterns(), path)
    case None => None
    case Some((i, m)) =>
      NumberPatternsCapture(i);
      DigitsGroup(NumberPatterns()[i], m.groups);
      Some(DecimalValue(m.groups[0]))
  }

  /** The number comes from the earliest pattern in the list that is found. */
  lemma BookNumberFirst(path: string, i: nat)
    requires i < |NumberPatterns()| && Found(NumberPatterns()[i], path)
    requires forall j | 0 <= j < i :: !Found(NumberPatterns()[j], path)
    ensures var g := Search(NumberPatterns()[i], path).value.groups;
            |g| == 1 && AllDigits(g[0]) && ExtractBookNumber(path) == Some(DecimalValue(g[0]))
  {
    var r := FirstSearch(NumberPatterns(), path);
    assert AnyFound(NumberPatterns(), path);
    assert r.value.0 == i;
    NumberPatternsCapture(i);
    DigitsGroup(NumberPatterns()[i], r.value.1.groups);
  }

  /** The number of the book at `bookPath`, when a path is given. */
  function BookNumberOf(bookPath: Option<string>): Option<nat> {
    if bookPath.Some? then ExtractBookNumber(bookPath.value) else None
  }

  // ---------------------------------------------------------------------
  // Book types and the kinds of file each one merges

  /** `not book_type`: no type, or the empty string. */
  predicate NoType(bookType: Option<string>) {
    bookType.None? || bookType.value == []
  }

  predicate IsLC(bookType: string) { UpperStr(bookType) == "LC" }
  predicate IsRC(bookType: string) { UpperStr(bookType) == "RC" }

  /** The kinds of file the pattern lists name. */
  datatype Kind = WordList | WordWriting | WordTest | TranslationSheet | UnscrambleSheet | GrammarSheet | UnitTest

  /** The kind as a zip-member pattern: the two words with one space. */
  function KindText(k: Kind): string {
    match k
    case WordList => "word list"
    case WordWriting => "word writing"
    case WordTest => "word test"
    case TranslationSheet => "translation sheet"
    case UnscrambleSheet => "unscramble sheet"
    case GrammarSheet => "grammar sheet"
    case UnitTest => "unit test"
  }

  /** The kind as a file-name pattern: the two words with `\s*` between. */
  function KindPattern(k: Kind): Pattern {
    match k
    case WordList => Phrase("word", "list")
    case WordWriting => Phrase("word", "writing")
    case WordTest => Phrase("word", "test")
    case TranslationSheet => Phrase("translation", "sheet")
    case UnscrambleSheet => Phrase("unscramble", "sheet")
    case GrammarSheet => Phrase("grammar", "sheet")
    case UnitTest => Phrase("unit", "test")
  }

  function KindPatterns(ks: seq<Kind>): (ps: seq<Pattern>)
    ensures |ps| == |ks| && forall i | 0 <= i < |ks| :: ps[i] == KindPattern(ks[i])
  {
    seq(|ks|, i requires 0 <= i < |ks| => KindPattern(ks[i]))
  }

  /** The kinds a reading book of number `n` merges, by the step function
      on the number. */
  function RcKinds(n: nat): seq<Kind> {
    if n <= 60 then [WordList, WordWriting, WordTest, TranslationSheet, UnscrambleSheet, UnitTest]
    else if n >= 100 then [WordList, WordTest, TranslationSheet, UnscrambleSheet, GrammarSheet, UnitTest]
    else if n >= 80 then [WordList, WordTest, TranslationSheet, UnscrambleSheet, UnitTest]
    else [WordList, WordTest, TranslationSheet, UnscrambleSheet]
  }

  /** The zip members of a reading book without a number. */
  function RcZipFallback(): seq<Kind> {
    [WordList, WordTest, TranslationSheet, UnscrambleSheet, UnitTest]
  }

  /** The file kinds of a reading book without a number. */
  function RcRuleFallback(): seq<Kind> {
    [WordList, WordTest, TranslationSheet, UnscrambleSheet]
  }

  /** Unit tests belong to a numbered reading book up to 60 and from 80 on;
      grammar sheets only from 100 on; word writing only up to 60. */
  lemma RcKindsByNumber(n: nat)
    ensures UnitTest in RcKinds(n) <==> n <= 60 || n >= 80
    ensures GrammarSheet in RcKinds(n) <==> n >= 100
    ensures WordWriting in RcKinds(n) <==> n <= 60
    ensures WordTest in RcKinds(n) && WordList in RcKinds(n)
  {
  }

  /** Without a number, the zip selection takes unit tests but the file
      rules do not. */
  lemma FallbacksDiffer()
    ensures UnitTest in RcZipFallback() && UnitTest !in RcRuleFallback()
    ensures forall k | k in RcRuleFallback() :: k in RcZipFallback()
  {
  }

  // ---------------------------------------------------------------------
  // get_zip_patterns

  /** `pattern.replace(' ', '')`. */
  function NoSpaces(s: string): string {
    Replace(s, " ", "")
  }

  /** Removing the spaces leaves none. */
  lemma {:induction false} NoSpacesHasNone(s: string)
    ensures ' ' !in NoSpaces(s)
    decreases |s|
  {
    if s != [] {
      NoSpacesHasNone(s[1..]);
      if OccursAt(s, " ", 0) {
        assert s[|" "|..] == s[1..];
        assert NoSpaces(s) == "" + NoSpaces(s[1..]);
      } else {
        assert NoSpaces(s) == [s[0]] + NoSpaces(s[1..]);
        assert s[0] != ' ';
      }
    }
  }

  /** The zip-member patterns of `base`: each followed by its copy without spaces. */
  predicate Spread(base: seq<string>, r: seq<string>) {
    && |r| == 2 * |base|
    && forall k | 0 <= k < |base| :: r[2 * k] == base[k] && r[2 * k + 1] == NoSpaces(base[k])
  }

  function KindTexts(ks: seq<Kind>): (ts: seq<string>)
    ensures |ts| == |ks| && forall i | 0 <= i < |ks| :: ts[i] == KindText(ks[i])
  {
    seq(|ks|, i requires 0 <= i < |ks| => KindText(ks[i]))
  }

  /** The base list of a reading book's zip selection. */
  function ZipBase(n: Option<nat>): seq<string> {
    KindTexts(if n.Some? then RcKinds(n.value) else RcZipFallback())
  }

  /** The loop that appends each base pattern and its copy without spaces. */
  method SpreadOut(base: seq<string>) returns (patterns: seq<string>)
    ensures Spread(base, patterns)
  {
    patterns := [];
    var k := 0;
    while k < |base|
      invariant 0 <= k <= |base|
      invariant Spread(base[..k], patterns)
    {
      patterns := patterns + [base[k]];
      patterns := patterns + [NoSpaces(base[k])];
      k := k + 1;
    }
    assert base[..k] == base;
  }

  /** `get_zip_patterns`. */
  method GetZipPatterns(bookType: Option<string>, bookPath: Option<string>) returns (patterns: seq<string>)
    ensures NoType(bookType) ==> patterns == []
    ensures !NoType(bookType) && IsLC(bookType.value) ==>
      patterns == [KindText(WordList), KindText(WordTest), "wordlist", "wordtest"]
    ensures !NoType(bookType) && !IsLC(bookType.value) && IsRC(bookType.value) ==>
      Spread(ZipBase(BookNumberOf(bookPath)), patterns)
    ensures !NoType(bookType) && !IsLC(bookType.value) && !IsRC(bookType.value) ==> patterns == []
  {
    if bookType.None? || bookType.value == [] {
      return [];
    }
    var bookNumber: Option<nat> := None;
    if bookPath.Some? {
      bookNumber := ExtractBookNumber(bookPath.value);
    }
    if UpperStr(bookType.value) == "LC" {
      return [KindText(WordList), KindText(WordTest), "wordlist", "wordtest"];
    } else if UpperStr(bookType.value) == "RC" {
      patterns := SpreadOut(ZipBase(bookNumber));
      return patterns;
    }
    return [];
  }

  /** In a reading book's zip selection every second pattern has no space. */
  lemma SpreadJoined(base: seq<string>, r: seq<string>, k: nat)
    requires Spread(base, r) && k < |base|
    ensures ' ' !in r[2 * k + 1]
  {
    NoSpacesHasNone(base[k]);
  }

  // ---------------------------------------------------------------------
  // get_files_for_level

  /** A level's rule: its include, exclude and required-file lists. */
  datatype LevelRule = LevelRule(includePatterns: seq<Pattern>, excludePatterns: seq<Pattern>, requiredFiles: seq<string>)

  /** `answer`, `답지`, `정답`. */
  function DefaultExclude(): seq<Pattern> {
    [Word("answer"), Word("답지"), Word("정답")]
  }

  /** `level_rules.get(level, <empty rule>)`. */
  function RuleFor(rules: map<string, LevelRule>, level: string): LevelRule {
    if level in rules then rules[level] else LevelRule([], [], [])
  }

  /** What a book type selects: the include patterns, the strictly required
      patterns, and the groups of which one is wanted (only warned about). */
  datatype Selection = Selection(included: seq<Kind>, required: seq<Kind>, optionalGroups: seq<seq<Kind>>)

  /** The patterns `get_files_for_level` sets up for a (non-empty) book type. */
  function SelectionFor(bookType: string, bookNumber: Option<nat>): Selection {
    if IsLC(bookType) then Selection([WordTest, WordList], [], [])
    else if IsRC(bookType) then
      if bookNumber.None? then Selection(RcRuleFallback(), RcRuleFallback(), [])
      else
        var n := bookNumber.value;
        if n <= 60 then
          Selection(RcKinds(n), [WordList, TranslationSheet, UnscrambleSheet, UnitTest], [[WordWriting, WordTest]])
        else Selection(RcKinds(n), RcKinds(n), [])
    else Selection([], [], [])
  }

  /** Every strictly required kind is also included, so a required kind can
      only be met by a file the filter kept. */
  lemma RequiredIncluded(bookType: string, bookNumber: Option<nat>)
    ensures forall k | k in SelectionFor(bookType, bookNumber).required ::
              k in SelectionFor(bookType, bookNumber).included
  {
  }

  /** `required.lower() in file_str` for some required name. */
  predicate NamesRequired(required: seq<string>, s: string) {
    exists k | 0 <= k < |required| :: Contains(s, LowerStr(required[k]))
  }

  /** Whether the loop over `all_files` keeps a path. */
  predicate Keeps(rule: LevelRule, includes: seq<Pattern>, f: string) {
    var s := LowerStr(f);
    && !AnyFound(rule.excludePatterns, s)
    && (includes == [] || AnyFound(includes, s) || NamesRequired(rule.requiredFiles, s))
  }

  function KeepFn(rule: LevelRule, includes: seq<Pattern>): string -> bool {
    f => Keeps(rule, includes, f)
  }

  /** Some pattern of `required` is found in none of `files`. */
  predicate MissingRequired(required: seq<Pattern>, files: seq<string>) {
    exists k | 0 <= k < |required| :: !FoundIn(required[k], files)
  }

  /** What `get_files_for_level` returns for the rule table `rules`. */
  function FilesForLevel(rules: map<string, LevelRule>, level: string, allFiles: seq<string>,
                         bookType: Option<string>, bookPath: Option<string>, skipRequiredCheck: bool)
    : Option<seq<string>>
  {
    if NoType(bookType) then Some(allFiles)
    else
      var number := if IsRC(bookType.value) && !IsLC(bookType.value) then BookNumberOf(bookPath) else None;
      var sel := SelectionFor(bookType.value, number);
      var filtered := Filter(allFiles, KeepFn(RuleFor(rules, level), KindPatterns(sel.included)));
      if sel.required != [] && !skipRequiredCheck && MissingRequired(KindPatterns(sel.required), filtered)
      then None
      else Some(filtered)
  }

  /** Without a book type every file is returned unchanged. */
  lemma NoTypeKeepsAll(rules: map<string, LevelRule>, level: string, allFiles: seq<string>,
                       bookPath: Option<string>, skip: bool)
    ensures FilesForLevel(rules, level, allFiles, None, bookPath, skip) == Some(allFiles)
    ensures FilesForLevel(rules, level, allFiles, Some(""), bookPath, skip) == Some(allFiles)
  {
  }

  /** With a book type, the result holds exactly the files, in order, that
      no exclude pattern of the level matches and that an include pattern
      or a required name admits; so no excluded file is ever returned. */
  lemma FilesForLevelMembers(rules: map<string, LevelRule>, level: string, allFiles: seq<string>,
                             bookType: Option<string>, bookPath: Option<string>, skip: bool, f: string)
    requires !NoType(bookType)
    requires FilesForLevel(rules, level, allFiles, bookType, bookPath, skip).Some?
    ensures var r := FilesForLevel(rules, level, allFiles, bookType, bookPath, skip).value;
            && Subsequence(r, allFiles)
            && (f in r ==> !AnyFound(RuleFor(rules, level).excludePatterns, LowerStr(f)))
            && (f in r <==> f in allFiles && f in Filter(allFiles, KeepFn(RuleFor(rules, level),
                  KindPatterns(SelectionFor(bookType.value,
                    if IsRC(bookType.value) && !IsLC(bookType.value) then BookNumberOf(bookPath) else None).included))))
  {
    var number := if IsRC(bookType.value) && !IsLC(bookType.value) then BookNumberOf(bookPath) else None;
    var keep := KeepFn(RuleFor(rules, level), KindPatterns(SelectionFor(bookType.value, number).included));
    FilterSubsequence(allFiles, keep);
    FilterMembers(allFiles, keep, f);
  }

  /** The result is `None` exactly when there is a type, the check is not
      skipped, and a strictly required kind matches none of the kept files. */
  lemma FilesForLevelNone(rules: map<string, LevelRule>, level: string, allFiles: seq<string>,
                          bookType: Option<string>, bookPath: Option<string>, skip: bool)
    ensures FilesForLevel(rules, level, allFiles, bookType, bookPath, skip).None? <==>
      && !NoType(bookType) && !skip
      && var number := if IsRC(bookType.value) && !IsLC(bookType.value) then BookNumberOf(bookPath) else None;
         var sel := SelectionFor(bookType.value, number);
         MissingRequired(KindPatterns(sel.required),
                         Filter(allFiles, KeepFn(RuleFor(rules, level), KindPatterns(sel.included))))
  {
  }

  /** For a reading book up to 60, word writing and word test form the
      one group of which a file is only wanted: neither is strictly
      required, so by `FilesForLevelNone` their absence never makes the
      result `None`. */
  lemma OptionalGroupOnlyWarns(n: nat)
    requires n <= 60
    ensures var sel := SelectionFor("RC", Some(n));
            && WordWriting !in sel.required && WordTest !in sel.required
            && sel.optionalGroups == [[WordWriting, WordTest]]
            && WordWriting in sel.included && WordTest in sel.included
  {
    assert UpperStr("RC") == "RC";
  }

  /** The inner loop over `rules['required_files']`. */
  method NamesAny(required: seq<string>, s: string) returns (hit: bool)
    ensures hit <==> NamesRequired(required, s)
  {
    hit := false;
    var k := 0;
    while k < |required|
      invariant 0 <= k <= |required|
      invariant forall j | 0 <= j < k :: !Contains(s, LowerStr(required[j]))
    {
      if Contains(s, LowerStr(required[k])) {
        hit := true;
        break;
      }
      k := k + 1;
    }
  }

  /** Some file of `files`, lower-cased, shows the pattern. */
  predicate FoundIn(p: Pattern, files: seq<string>) {
    exists j | 0 <= j < |files| :: Found(p, LowerStr(files[j]))
  }

  /** The inner loop over `filtered_files` for one required pattern. */
  method FoundInAny(p: Pattern, files: seq<string>) returns (hit: bool)
    ensures hit <==> FoundIn(p, files)
  {
    hit := false;
    var j := 0;
    while j < |files|
      invariant 0 <= j <= |files|
      invariant forall i | 0 <= i < j :: !Found(p, LowerStr(files[i]))
    {
      if Search(p, LowerStr(files[j])).Some? {
        hit := true;
        break;
      }
      j := j + 1;
    }
  }

  /** The body of the loop over `all_files` for one path. */
  method KeepsFile(rule: LevelRule, includes: seq<Pattern>, f: string) returns (keep: bool)
    ensures keep == Keeps(rule, includes, f)
  {
    var s := LowerStr(f);
    var excluded := SearchAny(rule.excludePatterns, s);
    if excluded {
      return false;
    }
    var included := false;
    if includes != [] {
      included := SearchAny(includes, s);
    } else {
      included := true;
    }
    if rule.requiredFiles != [] {
      var named := NamesAny(rule.requiredFiles, s);
      if named {
        included := true;
      }
    } else {
      assert !NamesRequired(rule.requiredFiles, s);
    }
    return included;
  }

  /** The loop over `all_files`: exclusion first, then inclusion by pattern
      or by required name. */
  method KeepFiles(rule: LevelRule, includes: seq<Pattern>, allFiles: seq<string>) returns (filtered: seq<string>)
    ensures filtered == Filter(allFiles, KeepFn(rule, includes))
  {
    filtered := [];
    for i := 0 to |allFiles|
      invariant filtered == Filter(allFiles[..i], KeepFn(rule, includes))
    {
      var f := allFiles[i];
      FilterPrefixStep(allFiles, i, KeepFn(rule, includes));
      var keep := KeepsFile(rule, includes, f);
      assert KeepFn(rule, includes)(f) == keep;
      if keep {
        filtered := filtered + [f];
      }
    }
    assert allFiles[..|allFiles|] == allFiles;
  }

  /** `found` holds the patterns among the first `k` of `required` that
      some file shows, and only patterns some file shows. */
  predicate FoundUpTo(required: seq<Pattern>, files: seq<string>, k: nat, found: set<Pattern>)
    requires k <= |required|
  {
    && (forall i | 0 <= i < k :: required[i] in found <==> FoundIn(required[i], files))
    && (forall p | p in found :: FoundIn(p, files))
  }

  lemma FoundStep(required: seq<Pattern>, files: seq<string>, k: nat, found: set<Pattern>, hit: bool)
    requires k < |required| && FoundUpTo(required, files, k, found)
    requires hit <==> FoundIn(required[k], files)
    ensures FoundUpTo(required, files, k + 1, if hit then found + {required[k]} else found)
  {
    var next := if hit then found + {required[k]} else found;
    forall i | 0 <= i < k + 1 ensures required[i] in next <==> FoundIn(required[i], files) {
      if i < k && required[i] != required[k] {
        assert required[i] in next <==> required[i] in found;
      }
    }
  }

  /** The check of the strictly required patterns: the set of those found
      in some kept file, and whether any is missing from it. */
  method CheckRequired(required: seq<Pattern>, filtered: seq<string>) returns (missing: bool)
    ensures missing <==> MissingRequired(required, filtered)
  {
    var found: set<Pattern> := {};
    for k := 0 to |required|
      invariant FoundUpTo(required, filtered, k, found)
    {
      var hit := FoundInAny(required[k], filtered);
      FoundStep(required, filtered, k, found, hit);
      if hit {
        found := found + {required[k]};
      }
    }
    missing := exists k | 0 <= k < |required| :: required[k] !in found;
    if missing {
      var k :| 0 <= k < |required| && required[k] !in found;
      assert !FoundIn(required[k], filtered);
    }
  }

  // ---------------------------------------------------------------------
  // The rule table

  class LevelConfig {
    var levelRules: map<string, LevelRule>
    /** The key order of `level_rules`. */
    var levelOrder: seq<string>

    ghost predicate Valid()
      reads this
    {
      Grouping.Distinct(levelOrder) && forall l :: l in levelRules <==> l in levelOrder
    }

    /** `__init__`: one rule, for "Level 1", that only excludes answer files. */
    constructor ()
      ensures Valid()
      ensures levelRules == map["Level 1" := LevelRule([], DefaultExclude(), [])]
      ensures levelOrder == ["Level 1"]
    {
      levelRules := map["Level 1" := LevelRule([], DefaultExclude(), [])];
      levelOrder := ["Level 1"];
    }

    predicate HasLevel(level: string)
      reads this
    {
      level in levelRules
    }

    /** `add_level_rule`: sets the level's rule, a missing list standing for
      an empty one; a new level goes to the end of the key order. */
    method AddLevelRule(level: string, includes: Option<seq<Pattern>>, exclude: Option<seq<Pattern>>,
                        requiredFiles: Option<seq<string>>)
      requires Valid()
      modifies this
      ensures Valid()
      ensures levelRules == old(levelRules)[level := LevelRule(
        if includes.Some? then includes.value else [],
        if exclude.Some? then exclude.value else [],
        if requiredFiles.Some? then requiredFiles.value else [])]
      ensures levelOrder == if level in old(levelRules) then old(levelOrder) else old(levelOrder) + [level]
      ensures HasLevel(level) && forall l | l != level :: HasLevel(l) == old(HasLevel(l))
    {
      levelRules := levelRules[level := LevelRule(
        if includes.Some? then includes.value else [],
        if exclude.Some? then exclude.value else [],
        if requiredFiles.Some? then requiredFiles.value else [])];
      if level !in levelOrder {
        levelOrder := levelOrder + [level];
      }
    }

    /** `get_all_levels`: every level with a rule, once each, in key order. */
    method GetAllLevels() returns (levels: seq<string>)
      requires Valid()
      ensures levels == levelOrder
      ensures Grouping.Distinct(levels) && forall l :: l in levels <==> HasLevel(l)
    {
      levels := levelOrder;
    }

    /** `get_files_for_level` against this table of rules. */
    method GetFilesForLevel(level: string, allFiles: seq<string>, bookType: Option<string>,
                            bookPath: Option<string>, skipRequiredCheck: bool)
      returns (r: Option<seq<string>>)
      ensures r == FilesForLevel(levelRules, level, allFiles, bookType, bookPath, skipRequiredCheck)
    {
      if bookType.None? || bookType.value == [] {
        return Some(allFiles);
      }
      var rule := if level in levelRules then levelRules[level] else LevelRule([], [], []);
      var bookNumber: Option<nat> := None;
      if IsLC(bookType.value) {
      } else if IsRC(bookType.value) && bookPath.Some? {
        bookNumber := ExtractBookNumber(bookPath.value);
      }
      var sel := SelectionFor(bookType.value, bookNumber);
      var filtered := KeepFiles(rule, KindPatterns(sel.included), allFiles);
      if sel.required != [] && !skipRequiredCheck {
        var missing := CheckRequired(KindPatterns(sel.required), filtered);
        if missing {
          return None;
        }
      }
      return Some(filtered);
    }
  }
}
