# PDFusion core, modelled in Dafny

PDFusion turns a folder of English-workbook PDFs into one PDF per unit. The
folder holds category files such as "Word List", "Word Test", "Unit Test" and
"Review Test". This project models the decisions PDFusion makes along the way
and proves what they promise:

- **Unit-boundary detection** (`UnitBoundary`, on `pdfusion/config_v5.py`).
  - The page text is normalised.
  - A first page that looks like a table of contents can be dropped.
  - The per-page "unit N" headings are scanned for the pages where the number changes.
  - The boundaries become per-unit page lengths, with an even split as the fallback.
- **Configuration pieces of `get_user_input`** (`ConfigV5`, `ConfigV5Answers`):
  - the unit number of a path;
  - the review-test unit range;
  - reconciling unit counts across categories;
  - combining several files of one category;
  - keeping the first Unit Test file per unit;
  - the parsers for the zip selection and the merge order.
- **File discovery** (`FileDiscovery`, with the generic grouping in `Grouping` and the filter and stable sort in `Seqs`): exclusion of answer keys, separation of review tests, categorisation, and sorting by unit number.
- **Level rules** (`LevelConfig`):
  - the level and the book number of a path;
  - the patterns for zips;
  - the category set that depends on the book number;
  - exclude-then-include filtering, with a required-category gate;
  - the `LevelConfig` class holding the rules.
- **Book-type detection** (`BookTypeDetector`): the priority cascade over the path, the directory listing and the page texts.
- **The merge engine** (`Merger`): class `PdfMerger`, with its statistics counters, its merge log and the files it writes.
  - A review whose unit list is empty (as `pdfusion/config.py:123-135` builds for a range such as "5-3") passes validation. `max` then raises ValueError out of `merge_unit_pdf` and `merge_all_units`; the model carries this as a `raised` result.
  - The output directory may already hold files from an earlier run. `merge_all_units_to_one` combines every unit file that exists, stale ones included.
- **Zip extraction** (`Extractor`): how the extraction folder is named and how member names are cleaned.
- **The simple concatenating merger** (`SimpleMerger`): class `SimplePdfMerger`.

Shared helpers:
- `Strings`: Python's whitespace set, `strip`, `split`, `replace`, `int()` of decimal text, and ASCII case folding.
- `Regex`: a small backtracking matcher for the patterns the sources use. It has literal classes, bounded greedy repetition, capture groups and case-insensitive matching, and offers leftmost search, `findall` and `sub`.
- `Paths`: POSIX `Path.name`, `stem`, `suffix`, `parent` and `/`.

Design choices:
- A PDF is a sequence of page identifiers.
- The file system is a map from path to document, where a document is readable or not.
- User answers to prompts are string parameters.
- Where the documented behaviour and the code differ, the model follows the code. At book numbers up to 60, the word-writing / word-test group only produces a warning (`pdfusion/level_config.py:395-410`). It never makes `get_files_for_level` return `None`.

## Model

| member | source | states |
|---|---|---|
| UnitBoundary.NormalizeText | pdfusion/config_v5.py:1061-1070 | the normalised text contains no whitespace character other than a single space, never two spaces in a row, and no leading or trailing whitespace |
| UnitBoundary.CollapseSingleSpaced | pdfusion/config_v5.py:1064 | replacing every whitespace run by one space leaves a single-spaced text |
| UnitBoundary.StripSingleSpaced | pdfusion/config_v5.py:1065 | stripping a single-spaced text keeps it single-spaced and leaves it trimmed |
| UnitBoundary.RepairKeepsShape | pdfusion/config_v5.py:1066-1069 | each "U n i t" repair keeps a single-spaced, trimmed text single-spaced and trimmed |
| UnitBoundary.RepairFrom | pdfusion/config_v5.py:1066-1069 | substituting a space-free replacement into a single-spaced text keeps it single-spaced, and its ends are ends of the text or of the replacement |
| UnitBoundary.SplitUnitsNonEmpty | pdfusion/config_v5.py:1066-1069 | none of the four repair patterns can match the empty string |
| UnitBoundary.TocIgnoresCase | pdfusion/config_v5.py:1072-1081 | the table-of-contents test gives the same answer on the lower-cased text: it ignores ASCII case |
| UnitBoundary.TocDigitsAt | pdfusion/config_v5.py:1078 | `\d{1,2}` takes one or two digits when no third digit follows |
| UnitBoundary.TocGapAt | pdfusion/config_v5.py:1078 | `\s*\d{1,2}` takes the whole run of blanks, then the digits |
| UnitBoundary.TocHeadingAt | pdfusion/config_v5.py:1078 | `unit\s*\d{1,2}` matches "unit", any blanks and one or two digits |
| UnitBoundary.TocHeadingNext | pdfusion/config_v5.py:1078 | `findall` returns the next heading, as written in the text, and goes on after it |
| UnitBoundary.TocFindAllEnd | pdfusion/config_v5.py:1078 | `findall` finds nothing at the end of the text |
| UnitBoundary.DistinctThree | pdfusion/config_v5.py:1079 | three different headings make a set of three |
| UnitBoundary.DistinctRepeat | pdfusion/config_v5.py:1079 | a repeated heading counts once in the set |
| UnitBoundary.LacksChar | pdfusion/config_v5.py:1074-1076 | a text without a character contains no keyword that has it |
| UnitBoundary.ThreeHeadingsToc | pdfusion/config_v5.py:1072-1081 | "unit 1 unit1 unit 2", with no keyword, is a table of contents: "unit 1" and "unit1" are two of its three different headings |
| UnitBoundary.TwoHeadingsNotToc | pdfusion/config_v5.py:1072-1081 | "unit 1 unit 2 unit 1", with no keyword, is not a table of contents: it has three headings but only two different ones |
| UnitBoundary.TocKeywordSubsumed | pdfusion/config_v5.py:1074-1076 | a text mentioning "table of contents" already mentions "contents" |
| UnitBoundary.StartPage | pdfusion/config_v5.py:1087-1096 | the scan starts at page 1 iff the first page is a table of contents and the answer is "y", otherwise at page 0 |
| UnitBoundary.PageMarker | pdfusion/config_v5.py:1104-1113 | a blank page yields no marker; a heading number is always below 100 |
| UnitBoundary.HeadingGroup | pdfusion/config_v5.py:1059 | the heading pattern captures one group of one or two digits, worth less than 100 |
| UnitBoundary.Markers | pdfusion/config_v5.py:1103-1110 | one marker per page |
| UnitBoundary.ChangePoints | pdfusion/config_v5.py:1112-1122 | every change point lies in the scanned range on a page with a heading |
| UnitBoundary.ChangePointsExact | pdfusion/config_v5.py:1112-1122 | the change points are strictly increasing and are exactly the pages whose heading number differs from the last number seen |
| UnitBoundary.ScanIsChangePoints | pdfusion/config_v5.py:1098-1122 | the scan's state after any prefix is the change points, with the first moved back to the start page by the first-page rule, the numbers read there, and the last number seen |
| UnitBoundary.BlankPageInert | pdfusion/config_v5.py:1106-1112 | a page without a heading leaves the whole scan state unchanged |
| UnitBoundary.ChangeNumbersDiffer | pdfusion/config_v5.py:1119-1122 | consecutive recorded unit numbers differ |
| UnitBoundary.FirstChangeIsFirstHeading | pdfusion/config_v5.py:1103-1118 | there is no change point iff no page has a heading; otherwise the first one is the first page with a heading |
| UnitBoundary.FirstBoundary | pdfusion/config_v5.py:1114-1118 | the first boundary is the first heading page, except that a first heading on page start+1 puts the boundary at the start page |
| UnitBoundary.ScanShape | pdfusion/config_v5.py:1098-1122 | the boundaries are strictly increasing and inside the scanned pages, one number per boundary, with consecutive numbers different |
| UnitBoundary.ScanBoundaries | pdfusion/config_v5.py:1098-1122 | the scan loop computes exactly the specified boundaries and numbers |
| UnitBoundary.Gaps | pdfusion/config_v5.py:1142 | n boundaries give n-1 lengths |
| UnitBoundary.SumGaps | pdfusion/config_v5.py:1141-1143 | the lengths add up to the last boundary minus the first |
| UnitBoundary.GapsOfBoundaries | pdfusion/config_v5.py:1141-1143 | with the page count appended to increasing boundaries, there is one length per boundary, each at least 1, summing to the page count minus the first boundary |
| UnitBoundary.LengthsWhenFound | pdfusion/config_v5.py:1141-1143 | when a boundary is found, there is one length per unit, every length is at least 1, and the pages before the first boundary are dropped from the sum |
| UnitBoundary.SplitEvenly | pdfusion/config_v5.py:1130-1135 | k entries of total // k, with the remainder added to the last |
| UnitBoundary.SplitEvenlySum | pdfusion/config_v5.py:1130-1135 | the even split adds up to the page total |
| UnitBoundary.FallbackLengths | pdfusion/config_v5.py:1124-1147 | without a manual count the result is one length of all the scanned pages; a count of 0 or below gives []; a count k gives k lengths summing to the scanned pages |
| UnitBoundary.LengthsFromMarkers | pdfusion/config_v5.py:1098-1143 | the method's result equals the specified lengths of the markers |
| UnitBoundary.ExtractUnitPageLengths | pdfusion/config_v5.py:1056-1147 | the method's result equals the specified page lengths of the document's page texts and the three answers |
| ConfigV5.ExtractUnitNumber | pdfusion/config_v5.py:1049-1054 | the unit number is below 100, and 0 when the path contains no "unit[ _-]NN" |
| ConfigV5.FirstUnitNumber | pdfusion/config_v5.py:1051-1053 | the number read is the group of the leftmost match |
| ConfigV5.UnitNumberOfName | pdfusion/config_v5.py:1049-1054 | a name "…Unit-07…" with no 'u' before it yields the number written there, in any letter case |
| ConfigV5.ReviewRange | pdfusion/config_v5.py:1014-1019 | without a "Unit(s) a-b" in the name both ends default to the total unit count; otherwise both ends are below 100 |
| ConfigV5.ReviewRangeOfName | pdfusion/config_v5.py:1014-1017 | a name "…Units 3~4…" yields exactly (3, 4) |
| ConfigV5.FirstReviewRange | pdfusion/config_v5.py:1014-1017 | the range read is the two groups of the leftmost match |
| ConfigV5.Max | pdfusion/config_v5.py:976 | the maximum is an element and bounds all elements |
| ConfigV5.TotalUnits | pdfusion/config_v5.py:966-982 | the total is 0 for no categories, and otherwise a category's count that no other exceeds |
| ConfigV5.AllAgree | pdfusion/config_v5.py:973-981 | when the set of counts has one element, every count equals the first |
| ConfigV5.CombineFiles | pdfusion/config_v5.py:937-961 | the loop yields the concatenated lengths and one entry per file that gave lengths |
| ConfigV5.InfosKept | pdfusion/config_v5.py:940-947 | the entries are the files with a non-empty result, in order, each with its unit count |
| ConfigV5.InfosTotal | pdfusion/config_v5.py:948-949 | the combined list is as long as the sum of the unit counts |
| ConfigV5.InfosStart | pdfusion/config_v5.py:937-949 | each file's start index is the sum of the unit counts before it |
| ConfigV5.InfosSlice | pdfusion/config_v5.py:942-949 | the combined list holds each file's lengths at its start index |
| ConfigV5.FirstIndex | pdfusion/config_v5.py:532-537 | the first position holding a unit number, or none when it does not occur |
| ConfigV5.FirstIndices | pdfusion/config_v5.py:532-538 | each selected position is the first holding its number, which is positive; the numbers ascend |
| ConfigV5.FirstIndicesComplete | pdfusion/config_v5.py:532-538 | every positive unit number that occurs is represented |
| ConfigV5.UnitNumbers | pdfusion/config_v5.py:534 | one unit number per file, each below 100 |
| ConfigV5.FirstFilesAreFirst | pdfusion/config_v5.py:532-537 | the dictionary maps exactly the positive numbers seen to the first file with them |
| ConfigV5.DedupUnitTests | pdfusion/config_v5.py:530-538 | keeps, for each positive unit number in ascending order, the first file that has it |
| ConfigV5.FirstPerUnit | pdfusion/config_v5.py:532-538 | the two loops of the de-duplication compute the first file per unit number |
| ConfigV5Answers.Range | pdfusion/config_v5.py:95 | `range(a, b)`: b-a consecutive integers from a, or none |
| ConfigV5Answers.SortedSet | pdfusion/config_v5.py:116 | `sorted(set(xs))`: increasing, with the same members |
| ConfigV5Answers.Insert | pdfusion/config_v5.py:116 | inserting into an increasing list keeps it increasing and adds exactly that member |
| ConfigV5Answers.IncreasingUnique | pdfusion/config_v5.py:116 | two increasing lists with the same members are equal |
| ConfigV5Answers.PyIndex | pdfusion/config_v5.py:118 | Python's index: a negative index counts from the end |
| ConfigV5Answers.Pick | pdfusion/config_v5.py:117-118 | the indexing succeeds iff every index is within Python's bounds, and then picks those files in order |
| ConfigV5Answers.NameMatches | pdfusion/config_v5.py:107 | exactly the zip files whose name contains the text, ignoring case |
| ConfigV5Answers.AddNew | pdfusion/config_v5.py:108-111 | keeps the earlier selection as a prefix and adds the files not yet selected |
| ConfigV5Answers.InRange | pdfusion/config_v5.py:101 | the corrected range keeps only the indices inside the list |
| ConfigV5Answers.SingleNumber | pdfusion/config_v5.py:99-104 | answer "k" picks the k-th zip when 1 ≤ k ≤ count; otherwise nothing is chosen |
| ConfigV5Answers.RangeWithinFiles | pdfusion/config_v5.py:90-97 | an answer "a-b" with 1 ≤ a ≤ b ≤ count picks zips a through b |
| ConfigV5Answers.RangePastEndFails | pdfusion/config_v5.py:93-95 | as written, a range ending past the last zip raises IndexError |
| ConfigV5Answers.ZeroRangeWraps | pdfusion/config_v5.py:93-95 | as written, "0-b" also picks the last zip first (index -1) |
| ConfigV5Answers.TwoFilesOneToThree | pdfusion/config_v5.py:90-118 | with two zips, "1-3" raises IndexError as written |
| ConfigV5Answers.TwoFilesOneToThreeChecked | pdfusion/config_v5.py:90-118 | with two zips and the bounds check, "1-3" picks both |
| ConfigV5Answers.CheckedRangeClipped | pdfusion/config_v5.py:90-104 | with the bounds check, "a-b" picks zips a through min(b, count) |
| ConfigV5Answers.SelectCheckedSafe | pdfusion/config_v5.py:84-122 | with the bounds check, no answer raises IndexError, and every chosen zip is a listed one |
| ConfigV5Answers.GatherCheckedInRange | pdfusion/config_v5.py:84-113 | with the bounds check, every gathered index is inside the list |
| ConfigV5Answers.NoRangeNoError | pdfusion/config_v5.py:84-118 | an answer without '-' behaves the same with or without the check and never raises |
| ConfigV5Answers.PickCategories | pdfusion/config_v5.py:998-1000 | at most one category per number, each a listed category |
| ConfigV5Answers.MergeOrder | pdfusion/config_v5.py:993-1006 | the order holds only listed categories; it is non-empty when any exist, and an empty answer gives the listed order |
| ConfigV5Answers.ParseAllNumerals | pdfusion/config_v5.py:996 | a comma-separated list of numerals parses to their values |
| ConfigV5Answers.OrderOfPicks | pdfusion/config_v5.py:996-1000 | numbers all within 1..count give exactly the categories they name, in the order given, repeats included |
| ConfigV5Answers.OrderOfNoNumbers | pdfusion/config_v5.py:1001-1002 | an answer naming no number falls back to the listed order |
| ConfigV5Answers.JoinedAnswer | pdfusion/config_v5.py:996 | numerals joined by commas split back into the same numerals |
| FileDiscovery.FilterExcludedFiles | pdfusion/file_discovery.py:50-76 | returns, in order, exactly the files whose lower-cased path matches no exclude pattern |
| FileDiscovery.FindReviewTests | pdfusion/file_discovery.py:78-100 | returns, in order, exactly the files that match a review pattern |
| FileDiscovery.UnitNumber | pdfusion/file_discovery.py:125-137 | the unit number is below 100, and 0 when no pattern matches |
| FileDiscovery.UnitNumberFirstPattern | pdfusion/file_discovery.py:127-136 | the number comes from the first of `unit`, `u`, `_u` that matches |
| FileDiscovery.UnitPatternGroup | pdfusion/file_discovery.py:127-136 | each unit pattern captures one group of at most two digits |
| FileDiscovery.FirstType | pdfusion/file_discovery.py:146-153 | no type iff no row other than Unit Test matches; otherwise the first matching row |
| FileDiscovery.FileType | pdfusion/file_discovery.py:140-153 | a path matching "unit test" is a Unit Test whatever else it matches |
| FileDiscovery.FileTypeFromTable | pdfusion/file_discovery.py:116-122 | otherwise the type is the first of Word List, Word Test, Translation Sheet, Unscramble Sheet whose patterns match, or none |
| FileDiscovery.CategorizeFiles | pdfusion/file_discovery.py:102-211 | the categories are the distinct group names in first-seen order; each list is the stable unit-number sort of its files; list sizes add up to the non-review files |
| FileDiscovery.CategoryListMembers | pdfusion/file_discovery.py:158-192 | a file is in a category's list iff it is an input, not a review test, and that category is its type or its stripped stem |
| FileDiscovery.CategoryListOrder | pdfusion/file_discovery.py:196-198 | each list is sorted by unit number, and files with equal numbers keep their input order |
| FileDiscovery.RemoveSelected | pdfusion/file_discovery.py:239-240 | removing the review tests leaves exactly the others, in order, and the two lists partition the input |
| FileDiscovery.Discover | pdfusion/file_discovery.py:220-250 | all, reviews, main and categories as above; main and reviews partition all, and the categories hold every main file once |
| Grouping.GroupNamesMembers | pdfusion/file_discovery.py:178-191 | a name is a category iff some kept file falls in it |
| Grouping.GroupNamesDistinct | pdfusion/file_discovery.py:178-191 | category names are distinct |
| Grouping.GroupsCover | pdfusion/file_discovery.py:158-192 | the group sizes add up to the number of kept files |
| Grouping.GroupBy | pdfusion/file_discovery.py:158-192 | the loop yields each kept file's group in input order, with the names in first-seen order |
| Grouping.SortGroups | pdfusion/file_discovery.py:196-198 | every list is replaced by its sort and no key is added or lost |
| Grouping.GroupAndSort | pdfusion/file_discovery.py:158-198 | the grouped and sorted dictionary, with its sizes adding up to the kept files |
| Seqs.FilterMembers | pdfusion/file_discovery.py:60-76 | an element survives the filter iff it is in the input and satisfies the test |
| Seqs.FilterSubsequence | pdfusion/file_discovery.py:60-76 | the filter keeps the input order |
| Seqs.FilterPartition | pdfusion/file_discovery.py:239-240 | complementary filters split the input |
| Seqs.SortSorted | pdfusion/file_discovery.py:198 | `list.sort(key=…)` leaves the list ordered by key |
| Seqs.SortPermutes | pdfusion/file_discovery.py:198 | the sort is a permutation |
| Seqs.SortStable | pdfusion/file_discovery.py:198 | the sort is stable: elements with equal keys keep their order |
| LevelConfig.DetectLevel | pdfusion/level_config.py:40-75 | none iff no level pattern matches the lower-cased path; otherwise "Level " followed by digits |
| LevelConfig.DetectLevelFirst | pdfusion/level_config.py:55-72 | the digits come from the first pattern in list order that matches |
| LevelConfig.ExtractBookNumber | pdfusion/level_config.py:77-110 | none iff no number pattern matches the path |
| LevelConfig.BookNumberFirst | pdfusion/level_config.py:92-105 | the number comes from the first pattern in list order that matches |
| LevelConfig.RcKindsByNumber | pdfusion/level_config.py:210-291 | the RC sets: unit test iff ≤60 or ≥80, grammar sheet iff ≥100, word writing iff ≤60, word list and word test always |
| LevelConfig.FallbacksDiffer | pdfusion/level_config.py:154 | without a book number, the zip patterns include unit test but the file rules (293-306) do not; the rules are a subset |
| LevelConfig.SpreadOut | pdfusion/level_config.py:157-162 | each base pattern is followed by its copy with the spaces removed |
| LevelConfig.SpreadJoined | pdfusion/level_config.py:160 | the copies contain no space |
| LevelConfig.GetZipPatterns | pdfusion/level_config.py:112-165 | no type or an unknown type gives []; LC the fixed four; RC the spread-out base of its book number |
| LevelConfig.RequiredIncluded | pdfusion/level_config.py:210-311 | every required category is also included |
| LevelConfig.NoTypeKeepsAll | pdfusion/level_config.py:186-188 | with no book type the file list comes back unchanged |
| LevelConfig.FilesForLevelMembers | pdfusion/level_config.py:328-378 | the result keeps input order, never holds an excluded file, and holds exactly the files the rule keeps |
| LevelConfig.FilesForLevelNone | pdfusion/level_config.py:381-420 | the result is None iff there is a type, the check is not skipped, and some required pattern matches no kept file |
| LevelConfig.OptionalGroupOnlyWarns | pdfusion/level_config.py:395-410 | at ≤60 word writing and word test form an optional group, not required categories |
| LevelConfig.NamesAny | pdfusion/level_config.py:367-372 | the loop finds whether any required name occurs in the path |
| LevelConfig.KeepsFile | pdfusion/level_config.py:334-372 | the per-file decision: excluded first, then included by pattern or required name |
| LevelConfig.KeepFiles | pdfusion/level_config.py:328-378 | the loop keeps exactly the files the rule keeps, in order |
| LevelConfig.FoundInAny | pdfusion/level_config.py:385-390 | the loop finds whether a pattern matches any kept file |
| LevelConfig.CheckRequired | pdfusion/level_config.py:381-392 | some required pattern is missing iff one matches no kept file |
| LevelConfig.LevelConfig.constructor | pdfusion/level_config.py:17-38 | the default rules: "Level 1" only, with the default excludes |
| LevelConfig.LevelConfig.AddLevelRule | pdfusion/level_config.py:427-442 | sets the rule of one level and leaves every other level as it was |
| LevelConfig.LevelConfig.GetAllLevels | pdfusion/level_config.py:445-447 | the levels in insertion order, without repeats, exactly those defined |
| LevelConfig.LevelConfig.GetFilesForLevel | pdfusion/level_config.py:167-425 | the file selection specified by FilesForLevel for the current rules |
| BookTypeDetector.PathPrecedence | pdfusion/book_type_detector.py:43-88 | "listening" gives LC, then "reading" gives RC, then the LC patterns, then the RC patterns; none iff nothing matches |
| BookTypeDetector.PathCaseInsensitive | pdfusion/book_type_detector.py:53 | detection from a path ignores its case |
| BookTypeDetector.PagesToCheck | pdfusion/book_type_detector.py:103 | `min(max_pages, page count)`, never more than either |
| BookTypeDetector.DetectFromContent | pdfusion/book_type_detector.py:90-125 | an unreadable file gives none; otherwise none iff no checked page has a type |
| BookTypeDetector.ContentFirstPage | pdfusion/book_type_detector.py:103-119 | the type found is that of the first checked page with a type |
| BookTypeDetector.ContentPrefix | pdfusion/book_type_detector.py:103 | pages beyond the first max_pages are never looked at |
| BookTypeDetector.FirstTyped | pdfusion/book_type_detector.py:148-155 | a first-match search: none iff no element gives a type |
| BookTypeDetector.FirstTypedFirst | pdfusion/book_type_detector.py:148-155 | a type found is that of the first element giving one |
| BookTypeDetector.FileTypeHeuristic | pdfusion/book_type_detector.py:171-189 | RC iff a translation or unscramble sheet exists; LC iff none does and a word test or word list does |
| BookTypeDetector.Take | pdfusion/book_type_detector.py:159 | `xs[:n]` |
| BookTypeDetector.DetectFromDirectory | pdfusion/book_type_detector.py:127-202 | none iff all five stages give none |
| BookTypeDetector.DirectoryFirstStage | pdfusion/book_type_detector.py:139-199 | the result is that of the first stage giving a type |
| BookTypeDetector.DirectoryLooksAtFewPdfs | pdfusion/book_type_detector.py:159-199 | with ten PDFs or more, one more PDF that trips no heuristic changes nothing |
| BookTypeDetector.Detect | pdfusion/book_type_detector.py:204-243 | type none iff method none; "path" iff the path decides; "directory" only for directories; "content" only for a .pdf suffix; the type is that method's answer |
| BookTypeDetector.DirectoryAfterPath | pdfusion/book_type_detector.py:219-232 | the directory method is reported only when the directory's own name decides nothing |
| Merger.Lookup | pdfusion/merger.py:221-228 | `categories.get(name)`: none iff the name is absent |
| Merger.RangesTile | pdfusion/merger.py:126-145 | unit u starts at (u-1)·p and ends where unit u+1 starts; units tile the document |
| Merger.Extract | pdfusion/merger.py:147-204 | none, with one error, iff unreadable or start ≥ total; otherwise the clipped slice, with one warning iff end > total |
| Merger.UnitsCoverDocument | pdfusion/merger.py:178-196 | units 1..n together are the first n·p pages (or all of them), in order |
| Merger.FoldOk | pdfusion/merger.py:218-265 | a sequence of steps succeeds iff each step does |
| Merger.FoldPages | pdfusion/merger.py:218-265 | the pages of consecutive steps are concatenated in order |
| Merger.CategoryOutcome | pdfusion/merger.py:218-247 | a missing category adds one warning and does not fail; a present one succeeds iff it yields pages |
| Merger.MaxOf | pdfusion/merger.py:251 | the maximum is an element and bounds all elements |
| Merger.RaiseAt | pdfusion/merger.py:250-251 | the reviews before the first one with no units all have units, and that one has none: `max` raises there |
| Merger.RaisesOnEmptyUnits | pdfusion/merger.py:250-251 | merging a unit raises iff some review has an empty unit list |
| Merger.ReviewOnlyAtLastUnit | pdfusion/merger.py:250-260 | a review adds pages only at the maximum of its units, and then adds the whole file |
| Merger.MergeUnit | pdfusion/merger.py:206-300 | raises iff some review has no units, keeping what was logged before and writing nothing; otherwise the unit's pages are the collected pages, a file is written iff pages exist and saving works, success iff written and every step succeeded, and one error more when not written |
| Merger.EmptyUnitFails | pdfusion/merger.py:268-273 | a unit with no pages fails and writes nothing; unless it raised first, it adds an error |
| Merger.UnitNameInjective | pdfusion/merger.py:209 | distinct units write distinct files |
| Merger.CheckAll | pdfusion/merger.py:48-99 | the summed checks have no error iff no element has one |
| Merger.UnitsBeyond | pdfusion/merger.py:91-95 | counts the review units above the maximum: none iff all are within |
| Merger.FullUnitsDiv | pdfusion/merger.py:61 | `total // pages_per_unit` is the floor quotient |
| Merger.CategoriesPass | pdfusion/merger.py:48-73 | the categories have no error iff each is readable and has a positive page count per unit |
| Merger.ReviewsPass | pdfusion/merger.py:76-99 | the reviews have no error iff each is readable, named and has a positive page count per unit |
| Merger.ValidationMissesEmptyUnits | pdfusion/merger.py:76-99 | a usable review with an empty unit list neither errs nor warns, so validation lets it through |
| Merger.ValidationPasses | pdfusion/merger.py:41-124 | validation succeeds iff every category and review is usable |
| Merger.CategoryWarning | pdfusion/merger.py:60-68 | a usable category too short for the unit count only warns |
| Merger.Successes | pdfusion/merger.py:324-333 | the success count equals the unit count iff every unit succeeded |
| Merger.ResultsAt | pdfusion/merger.py:324-333 | the k-th result is that of unit k+1: units go in ascending order |
| Merger.UnitCount | pdfusion/merger.py:324 | `range(1, n + 1)` has n units, none when n is negative |
| Merger.UnitFilesWritten | pdfusion/merger.py:276-292 | every written unit's file holds that unit's pages |
| Merger.OtherFilesKept | pdfusion/merger.py:276-292 | files that are not unit files are untouched |
| Merger.CountersGrow | pdfusion/merger.py:27-38 | no counter and no log ever shrinks |
| Merger.CombinedAfterMerge | pdfusion/merger.py:366-381 | after merging, the combined file holds, unit by unit in order, the pages the unit wrote, or else the older file of that name, or nothing |
| Merger.FreshUnitFiles | pdfusion/merger.py:366-381 | with no unit file at the start, the unit files after the merge are exactly the written pages |
| Merger.CombinedFromEmpty | pdfusion/merger.py:366-381 | starting without unit files, the combined file is the written units' pages in unit order |
| Merger.StaleUnitFileCombined | pdfusion/merger.py:370-377 | a unit that wrote nothing this run still contributes the file an earlier run left in the kept output folder |
| Merger.PdfMerger.constructor | pdfusion/merger.py:27-38 | all counters zero, empty log, and the output directory keeps the files it already holds |
| Merger.PdfMerger.ValidatePdfFiles | pdfusion/merger.py:41-124 | returns true iff validation found no error; records its findings |
| Merger.PdfMerger.ExtractUnitPages | pdfusion/merger.py:147-204 | returns the specified pages and records their log lines and counters |
| Merger.PdfMerger.AddCategory | pdfusion/merger.py:218-247 | one category's pages, success and record |
| Merger.PdfMerger.AddCategories | pdfusion/merger.py:218-247 | the categories in merge order, as the fold of their steps |
| Merger.PdfMerger.AddReview | pdfusion/merger.py:250-265 | raises iff the review has no units; otherwise one review's pages, success and record |
| Merger.PdfMerger.AddReviews | pdfusion/merger.py:250-265 | the reviews in list order, as the fold of their steps, stopping at the first review that raises |
| Merger.PdfMerger.NextReview | pdfusion/merger.py:250-265 | one round of that loop: raises exactly at the first review without units, otherwise adds that review's step to the fold of those before it |
| Merger.PdfMerger.MergeUnitPdf | pdfusion/merger.py:206-300 | whether the unit raised, its success, and the state after that unit |
| Merger.PdfMerger.MergeAllUnits | pdfusion/merger.py:302-364 | raises iff validation passes, there is a unit and some review has no units, after unit 1 only; otherwise true iff validation passes and every unit 1..N succeeds; nothing is merged after a failed validation |
| Merger.PdfMerger.MergeUnits | pdfusion/merger.py:324-333 | the units in ascending order, counting the successes; a raise ends the loop at unit 1 |
| Merger.PdfMerger.MergeNext | pdfusion/merger.py:329-333 | one round of the loop: unit k+1 after units 1..k |
| Merger.PdfMerger.MergeAllUnitsToOne | pdfusion/merger.py:366-381 | the combined file is written iff saving works, and holds the unit files in order |
| Merger.CheckCategories | pdfusion/merger.py:48-73 | the loop sums the category checks |
| Merger.CheckReviews | pdfusion/merger.py:76-99 | the loop sums the review checks |
| Merger.CountUnitsBeyond | pdfusion/merger.py:91-95 | the loop counts the units above the maximum |
| Extractor.ExtractDirPlace | pdfusion/extractor.py:63-70 | the extraction folder is a direct child of the given directory or the zip's parent, named by the stripped stem |
| Extractor.FolderHasNoSep | pdfusion/extractor.py:65 | the folder name holds no separator |
| Extractor.SanitizeMemberName | pdfusion/extractor.py:95-97 | the cleaned name has no "..", no backslash, and is never longer than the raw name |
| Extractor.DropDotDotIsReplace | pdfusion/extractor.py:97 | the ".." removal is `replace('..', '')` |
| Extractor.DropDotDotClean | pdfusion/extractor.py:97 | after the removal no two dots are adjacent |
| Extractor.NormalizeSeps | pdfusion/extractor.py:97 | every backslash becomes the separator |
| Extractor.CleanFacts | pdfusion/extractor.py:97 | removal then separator normalisation leave no "..", no backslash, and no growth |
| Extractor.DotDotPrefixEscapes | pdfusion/extractor.py:95-103 | as written, member "../x" is cleaned to "/x" and written to "/x" outside the folder |
| Extractor.SafeMemberName | pdfusion/extractor.py:95-97 | the corrected cleaning: no "..", no backslash, not absolute, no growth |
| Extractor.SafeTargetInside | pdfusion/extractor.py:99-103 | with the corrected cleaning, a non-empty member lands directly under the folder |
| Extractor.TargetsInside | pdfusion/extractor.py:92-103 | every primary target lies inside the extraction folder under a relative name free of ".." |
| Extractor.ExtractTargets | pdfusion/extractor.py:92-103 | the loop yields the primary targets of the members in order, skipping empty names |
| Extractor.FallbackKeepsDotDot | pdfusion/extractor.py:122-129 | after a failed write, member "../x" is written to "dir/../x": the fallback keeps ".." |
| Extractor.CollectKept | pdfusion/extractor.py:92-100 | the loop keeps the values of the members that yield one, in order |
| SimpleMerger.SortNames | simple_pdf_merger/merger.py:134 | `sorted()` is a permutation |
| SimpleMerger.SortNamesSorted | simple_pdf_merger/merger.py:134 | `sorted()` orders the names |
| SimpleMerger.SortedUnique | simple_pdf_merger/merger.py:134 | there is one sorted permutation |
| SimpleMerger.DirectoryOrderIrrelevant | simple_pdf_merger/merger.py:125-134 | the order the directory lists its files in does not matter |
| SimpleMerger.StrLeTotal | simple_pdf_merger/merger.py:134 | string order is total |
| SimpleMerger.StrLeTrans | simple_pdf_merger/merger.py:134 | string order is transitive |
| SimpleMerger.StrLeAntisymmetric | simple_pdf_merger/merger.py:134 | string order is antisymmetric |
| SimpleMerger.ReadablePagesAppend | simple_pdf_merger/merger.py:66-82 | the pages of two lists are concatenated in order |
| SimpleMerger.MissingFilesAddNothing | simple_pdf_merger/merger.py:49-58 | filtering out missing files changes no page |
| SimpleMerger.AllReadable | simple_pdf_merger/merger.py:66-82 | when every file is readable there is no error and all pages are merged |
| SimpleMerger.WriteNeedsAPage | simple_pdf_merger/merger.py:84-86 | a merge is written only when some readable file has a page |
| SimpleMerger.ExistingFiles | simple_pdf_merger/merger.py:49-52 | the existing files, in order |
| SimpleMerger.SimplePdfMerger.constructor | simple_pdf_merger/merger.py:25-31 | empty log, and the output directory keeps the files it already holds |
| SimpleMerger.SimplePdfMerger.MergeFiles | simple_pdf_merger/merger.py:33-105 | true iff a merge is written; the output holds the readable pages of the existing files in order; the log gains the specified lines |
| SimpleMerger.SimplePdfMerger.ReadAll | simple_pdf_merger/merger.py:66-82 | the loop concatenates readable pages and logs one error per unreadable file |
| SimpleMerger.SimplePdfMerger.MergeDirectory | simple_pdf_merger/merger.py:107-140 | false for a non-directory or no match; otherwise merges the matches in sorted order |
| SimpleMerger.SimplePdfMerger.GetMergeLog | simple_pdf_merger/merger.py:142-144 | a copy of the log |
| SimpleMerger.SimplePdfMerger.ClearLog | simple_pdf_merger/merger.py:146-147 | the log becomes empty and the outputs are kept |

## Left out

- Prompts and `input()`: every answer is a string parameter. The unit-count answer and the answers to the zip and merge-order questions are parsed as the code does, except for the two differences of `Strings.ParseInt` below.
- Strings.ParseInt: accepts only ASCII digits with an optional sign. Python's `int()` also accepts underscores between digits (`"1_0"` is 10) and non-ASCII decimal digits (`"３"` is 3); the model reads both as errors.
- Strings.IsDigit: `\d` matches ASCII digits only. Python's `\d` on `str` matches every Unicode decimal digit, so a heading such as "Unit ３" is found by `pdfusion/config_v5.py:1059` but not by UnitBoundary.PageMarker, and the other patterns with `\d` differ the same way.
- PDF parsing, text extraction and writing: a document is a sequence of page identifiers, or one text per page. Any exception while reading becomes an unreadable document.
- Zip reading, `mkdir`, `rmtree` and file writes: only the target names are modelled.
- `glob`, `rglob` and `iterdir`: listings are inputs.
- Logging, `print`, the progress percentage and the timing in `merge_all_units`.
- `save_merge_log` (`pdfusion/merger.py:384-418`): report formatting, timestamps and file output. Log lines are a datatype, not formatted text.
- Full regular-expression semantics: only the constructs the patterns use are modelled. Case folding is ASCII only; `\w` is ASCII letters, digits, `_` and Hangul syllables, where Python's also takes every other Unicode letter and digit.
- Paths are POSIX paths with `/` as the separator.
- The rest of `get_user_input`:
  - the Unit Test "ALL file" branch and its choice prompt;
  - the `_Eng` filter;
  - the Word Test A/B selection;
  - the per-category file choice.
  Only the de-duplication of per-unit files (`pdfusion/config_v5.py:515-518, 530-538`) is modelled.
- The multi-file combine, reconciliation, review-range and merge-order steps are separate members, not one `get_user_input` function.
- The merger consumes only the configuration shape that `pdfusion/config.py` builds:
  - categories with `pdf_path` and `pages_per_unit`;
  - reviews with a `units` list.
  It never reads `unit_page_lengths` or `pdf_paths`.
- `pages_per_unit` is a natural number.
- Units below 1 are not passed to `extract_unit_pages` (`requires unit >= 1`); the caller only counts from 1.
- Merger.PdfMerger.MergeAllUnitsToOne: an exception while saving is modelled as a save that fails (`saved == writable`); nothing else can fail.
- A level rule's `include_patterns` is stored by `add_level_rule` but never read: `get_files_for_level` builds its include list from the book type (`pdfusion/level_config.py:203-311`), and the model does the same.
- FileDiscovery.NormalizeCategoryName has no contract of its own: it is `strip`. Its effect is stated through CategoryListMembers.
- FileDiscovery.FileType: the table clause is stated separately, in FileDiscovery.FileTypeFromTable.
- The simple merger's error lines carry the path, not `basename`.
- Extractor.TargetsInside: covers primary targets only. When writing a file fails, `pdfusion/extractor.py:122-129` retries at the raw member name, with `..` kept; that target is FallbackTarget, and FallbackKeepsDotDot shows it can leave the folder. Which writes fail is not modelled. Directory members are made with `mkdir`; they are targets like the files.
- Extractor.ExtractTargets uses the corrected cleaning SafeMemberName, as listed under Findings. The cleaning as written is SanitizeMemberName, with its consequence stated in DotDotPrefixEscapes.

## Findings

| source | as written | input that shows it | evidently intended | confidence | as-written member | corrected member |
|---|---|---|---|---|---|---|
| pdfusion/config_v5.py:93-95, 118 | a range entry "a-b" extends the indices with `range(a-1, b)` unchecked, then indexes `zip_files[idx]` | two zips, answer "1-3" raises IndexError; "0-2" also picks the last zip (index -1) | keep only indices inside the list, as single numbers are at line 101 | not executed | ConfigV5Answers.RangePastEndFails, ConfigV5Answers.ZeroRangeWraps, ConfigV5Answers.TwoFilesOneToThree | ConfigV5Answers.CheckedRangeClipped, ConfigV5Answers.SelectCheckedSafe, ConfigV5Answers.TwoFilesOneToThreeChecked |
| pdfusion/extractor.py:95-97 | leading separators are stripped before ".." is removed | member "../x" is cleaned to "/x", an absolute path, and written there | the cleaned name stays relative, inside the extraction folder | not executed | Extractor.DotDotPrefixEscapes | Extractor.SafeMemberName, Extractor.SafeTargetInside, Extractor.TargetsInside |
