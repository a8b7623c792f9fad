/** `ConfigManagerV5._extract_unit_page_lengths`: how the pages of one
    category PDF are split into units. Each page's text is normalised and
    searched for a "Unit N" heading; a new unit starts wherever the number
    differs from the last one seen, and the unit lengths are the gaps
    between those starts. The PDF reader is replaced by the list of page
    texts, and the three prompts by the lines the user would type. */
module UnitBoundary {
  import opened Strings
  import opened Regex

  // ---------------------------------------------------------------------
  // Text normalisation

  /** No whitespace other than the plain space, and never two spaces in a row. */
  predicate SingleSpaced(t: string) {
    (forall k | 0 <= k < |t| :: IsSpace(t[k]) ==> t[k] == ' ')
    && (forall k | 0 <= k < |t| - 1 :: !(t[k] == ' ' && t[k + 1] == ' '))
  }

  /** No leading or trailing whitespace. */
  predicate Trimmed(t: string) {
    t == [] || (!IsSpace(t[0]) && !IsSpace(t[|t| - 1]))
  }

  predicate NoSpace(t: string) {
    forall k | 0 <= k < |t| :: !IsSpace(t[k])
  }

  /** `\s+` */
  function SpaceRun(): Pattern { [Spaces1] }

  /** `U\s+n\s*i\s+t` */
  function SplitUnit1(): Pattern {
    [Lit('U'), Spaces1, Lit('n'), Spaces, Lit('i'), Spaces1, Lit('t')]
  }

  /** `U\s+nit` */
  function SplitUnit2(): Pattern { [Lit('U'), Spaces1] + Word("nit") }

  /** `Un\s+it` */
  function SplitUnit3(): Pattern { Word("Un") + [Spaces1] + Word("it") }

  /** `Uni\s+t` */
  function SplitUnit4(): Pattern { Word("Uni") + [Spaces1, Lit('t')] }

  lemma SplitUnitsNonEmpty()
    ensures MinLen(SplitUnit1()) > 0 && MinLen(SplitUnit2()) > 0
    ensures MinLen(SplitUnit3()) > 0 && MinLen(SplitUnit4()) > 0
  {
    CapturesAppend([Lit('U'), Spaces1], Word("nit"));
    CapturesAppend(Word("Un"), [Spaces1]);
    CapturesAppend(Word("Un") + [Spaces1], Word("it"));
    CapturesAppend(Word("Uni"), [Spaces1, Lit('t')]);
  }

  /** `normalize_text`: newlines become spaces, each run of whitespace
      becomes one space, the ends are stripped, and a "Unit" heading that
      text extraction split apart ("U n i t", "U nit", "Un it", "Uni t") is
      joined again. */
  function NormalizeText(text: string): (r: string)
    ensures SingleSpaced(r) && Trimmed(r)
  {
    SplitUnitsNonEmpty();
    var t1 := Replace(text, "\n", " ");
    var t2 := Sub(SpaceRun(), t1, " ");
    var t3 := Strip(t2);
    CollapseSingleSpaced(t1);
    StripSingleSpaced(t2);
    var t4 := Sub(SplitUnit1(), t3, "Unit");
    RepairKeepsShape(SplitUnit1(), t3);
    var t5 := Sub(SplitUnit2(), t4, "Unit");
    RepairKeepsShape(SplitUnit2(), t4);
    var t6 := Sub(SplitUnit3(), t5, "Unit");
    RepairKeepsShape(SplitUnit3(), t5);
    RepairKeepsShape(SplitUnit4(), t6);
    Sub(SplitUnit4(), t6, "Unit")
  }

  lemma SingleSpacedConcat(a: string, b: string)
    requires SingleSpaced(a) && SingleSpaced(b)
    requires a == [] || b == [] || a[|a| - 1] != ' ' || b[0] != ' '
    ensures SingleSpaced(a + b)
  {
    var t := a + b;
    forall k | 0 <= k < |t| - 1 ensures !(t[k] == ' ' && t[k + 1] == ' ') {
      if k < |a| - 1 {
        assert t[k] == a[k] && t[k + 1] == a[k + 1];
      } else if k >= |a| {
        assert t[k] == b[k - |a|] && t[k + 1] == b[k + 1 - |a|];
      }
    }
  }

  lemma SingleSpacedSlice(s: string, a: nat, b: nat)
    requires a <= b <= |s| && SingleSpaced(s)
    ensures SingleSpaced(s[a..b])
  {
    var t := s[a..b];
    forall k | 0 <= k < |t| - 1 ensures !(t[k] == ' ' && t[k + 1] == ' ') {
      assert t[k] == s[a + k] && t[k + 1] == s[a + k + 1];
    }
  }

  lemma NoSpaceSingleSpaced(t: string)
    requires NoSpace(t)
    ensures SingleSpaced(t)
  {
  }

  /** `\s+` matches at `j` exactly when `s[j]` is whitespace, and then it
      takes the whole run of whitespace. */
  lemma SpaceRunAt(s: string, j: nat)
    requires j <= |s|
    ensures MatchAt(SpaceRun(), s, j).Some? <==> j < |s| && IsSpace(s[j])
    ensures MatchAt(SpaceRun(), s, j).Some? ==>
              var e := MatchAt(SpaceRun(), s, j).value.end;
              (e == |s| || !IsSpace(s[e])) && forall k | j <= k < e :: IsSpace(s[k])
  {
    var p := SpaceRun();
    var k := Class([], true, false);
    assert p[0] == Rep(k, 1, None, false);
    assert forall c :: InClass(k, c) <==> IsSpace(c);
    var n := Run(k, s, j, None);
    assert p[1..] == [];
    assert MatchAt(p, s, j) == TryRep(p, s, j, n);
    if n >= 1 {
      assert MatchAt(p[1..], s, j + n) == Some(Hit(j + n, []));
      assert TryRep(p, s, j, n) == Some(Hit(j + n, []));
    }
  }

  /** Collapsing whitespace runs from `i` on leaves a single-spaced text
      whose first character is a space only where the input had whitespace. */
  predicate CollapsedFrom(s: string, i: nat)
    requires i <= |s|
  {
    var r := SubFrom(SpaceRun(), s, " ", i);
    SingleSpaced(r) && (r != [] && r[0] == ' ' ==> i < |s| && IsSpace(s[i]))
  }

  lemma {:induction false} CollapseFrom(s: string, i: nat)
    requires i <= |s|
    ensures CollapsedFrom(s, i)
    decreases |s| - i
  {
    match SearchFrom(SpaceRun(), s, i)
    case None =>
      CollapseRest(s, i);
    case Some(m) =>
      CollapseFrom(s, m.end);
      CollapseAt(s, i, m);
  }

  /** With no whitespace left, the rest is kept as it is. */
  lemma CollapseRest(s: string, i: nat)
    requires i <= |s| && SearchFrom(SpaceRun(), s, i).None?
    ensures CollapsedFrom(s, i)
  {
    var r := SubFrom(SpaceRun(), s, " ", i);
    forall k | i <= k < |s| ensures !IsSpace(s[k]) {
      SpaceRunAt(s, k);
    }
    assert r == s[i..];
    assert NoSpace(r) by {
      forall k | 0 <= k < |r| ensures !IsSpace(r[k]) { assert r[k] == s[i + k]; }
    }
  }

  /** No whitespace comes before the next run of it. */
  lemma NoSpaceBefore(s: string, i: nat, m: Match)
    requires i <= |s| && SearchFrom(SpaceRun(), s, i) == Some(m)
    ensures NoSpace(s[i..m.start])
  {
    var pre := s[i..m.start];
    forall k | 0 <= k < |pre| ensures !IsSpace(pre[k]) {
      assert pre[k] == s[i + k];
      SpaceRunAt(s, i + k);
    }
  }

  /** The text before the next run, one space, then the collapsed rest. */
  lemma CollapseAt(s: string, i: nat, m: Match)
    requires i <= |s| && SearchFrom(SpaceRun(), s, i) == Some(m)
    requires m.end <= |s| && CollapsedFrom(s, m.end)
    ensures CollapsedFrom(s, i)
  {
    var r := SubFrom(SpaceRun(), s, " ", i);
    var rest := SubFrom(SpaceRun(), s, " ", m.end);
    var pre := s[i..m.start];
    assert r == (pre + " ") + rest;
    NoSpaceBefore(s, i, m);
    SpaceRunAt(s, m.start);
    SingleSpacedConcat(pre, " ");
    SingleSpacedConcat(pre + " ", rest);
    if pre == [] {
      assert m.start == i;
    } else {
      assert r[0] == s[i];
    }
  }

  lemma CollapseSingleSpaced(s: string)
    ensures SingleSpaced(Sub(SpaceRun(), s, " "))
  {
    CollapseFrom(s, 0);
  }

  lemma StripSingleSpaced(s: string)
    requires SingleSpaced(s)
    ensures SingleSpaced(Strip(s)) && Trimmed(Strip(s))
  {
    var i := StripSlice(s);
    SingleSpacedSlice(s, i, i + |Strip(s)|);
  }

  /** Replacing matches by a word without whitespace keeps a single-spaced
      text single-spaced: the word sits where the match did, between the
      same neighbours. */
  lemma {:induction false} RepairFrom(p: Pattern, s: string, rep: string, i: nat)
    requires i <= |s| && MinLen(p) > 0
    requires SingleSpaced(s) && rep != [] && NoSpace(rep)
    ensures var r := SubFrom(p, s, rep, i);
            SingleSpaced(r)
            && (r != [] ==> r[0] == rep[0] || (i < |s| && r[0] == s[i]))
            && (r != [] ==> r[|r| - 1] == rep[|rep| - 1] || (|s| > 0 && r[|r| - 1] == s[|s| - 1]))
    decreases |s| - i
  {
    match SearchFrom(p, s, i)
    case None =>
      SingleSpacedSlice(s, i, |s|);
    case Some(m) =>
      var rest := SubFrom(p, s, rep, m.end);
      RepairFrom(p, s, rep, m.end);
      SingleSpacedSlice(s, i, m.start);
      SpacedAround(s[i..m.start], rep, rest);
  }

  /** A word without whitespace between two single-spaced texts gives a
      single-spaced text that starts and ends where they do. */
  lemma SpacedAround(pre: string, rep: string, rest: string)
    requires SingleSpaced(pre) && SingleSpaced(rest) && rep != [] && NoSpace(rep)
    ensures var r := pre + rep + rest;
            SingleSpaced(r)
            && r[0] == (if pre != [] then pre[0] else rep[0])
            && r[|r| - 1] == (if rest != [] then rest[|rest| - 1] else rep[|rep| - 1])
  {
    NoSpaceSingleSpaced(rep);
    SingleSpacedConcat(pre, rep);
    SingleSpacedConcat(pre + rep, rest);
  }

  lemma RepairKeepsShape(p: Pattern, s: string)
    requires MinLen(p) > 0 && SingleSpaced(s) && Trimmed(s)
    ensures SingleSpaced(Sub(p, s, "Unit")) && Trimmed(Sub(p, s, "Unit"))
  {
    RepairFrom(p, s, "Unit", 0);
  }

  // ---------------------------------------------------------------------
  // Table-of-contents pages

  const TocKeywords: seq<string> := ["목차", "contents", "table of contents", "index"]

  /** `unit\s*\d{1,2}` */
  function TocUnitPattern(): (p: Pattern)
    ensures MinLen(p) > 0
  {
    CapturesAppend(Word("unit"), [Spaces, Digits12(false)]);
    Word("unit") + [Spaces, Digits12(false)]
  }

  function Distinct(ms: seq<string>): set<string> {
    set k | 0 <= k < |ms| :: ms[k]
  }

  /** `is_toc_page`: the lower-cased text mentions a table-of-contents
      keyword, or shows at least three different "unit N" headings
      ("unit 1" and "unit1" count as different). */
  predicate IsTocPage(text: string) {
    var lower := LowerStr(text);
    (exists j | 0 <= j < |TocKeywords| :: Contains(lower, TocKeywords[j]))
    || |Distinct(FindAllFrom(TocUnitPattern(), lower, 0))| >= 3
  }

  /** The test does not depend on the case of ASCII letters. */
  lemma TocIgnoresCase(text: string)
    ensures IsTocPage(LowerStr(text)) == IsTocPage(text)
  {
    LowerStrIdempotent(text);
  }

  /** The tokens of `unit\s*\d{1,2}`, one by one. */
  lemma TocPatternShape()
    ensures TocUnitPattern() == [Lit('u'), Lit('n'), Lit('i'), Lit('t'), Spaces, Digits12(false)]
  {
    var w := Word("unit");
    assert w == [Lit('u'), Lit('n'), Lit('i'), Lit('t')];
  }

  /** `\d{1,2}` at `g` takes the digits up to `e` when no third digit follows. */
  lemma TocDigitsAt(s: string, g: nat, e: nat)
    requires g < e <= |s| && e <= g + 2 && forall j | g <= j < e :: IsDigit(s[j])
    requires e == |s| || e == g + 2 || !IsDigit(s[e])
    ensures MatchAt([Digits12(false)], s, g) == Some(Hit(e, []))
  {
    var p := [Digits12(false)];
    RunExact(p[0].k, s, g, p[0].hi, e - g);
    assert p[1..] == [];
    RepStep(p, s, g, e - g);
  }

  /** `\s*\d{1,2}` at `a` takes the blanks up to `g` and the digits up to `e`. */
  lemma TocGapAt(s: string, a: nat, g: nat, e: nat)
    requires a <= g < e <= |s| && e <= g + 2
    requires forall j | a <= j < g :: IsSpace(s[j])
    requires forall j | g <= j < e :: IsDigit(s[j])
    requires e == |s| || e == g + 2 || !IsDigit(s[e])
    ensures MatchAt([Spaces, Digits12(false)], s, a) == Some(Hit(e, []))
  {
    var p := [Spaces, Digits12(false)];
    TocDigitsAt(s, g, e);
    assert !InClass(Spaces.k, s[g]);
    RunExact(Spaces.k, s, a, None, g - a);
    assert p[1..] == [Digits12(false)];
    RepStep(p, s, a, g - a);
  }

  /** `unit\s*\d{1,2}` matches at `q`: "unit", blanks up to `g`, digits up to `e`. */
  lemma TocHeadingAt(s: string, q: nat, g: nat, e: nat)
    requires q + 4 <= g < e <= |s| && e <= g + 2
    requires s[q] == 'u' && s[q + 1] == 'n' && s[q + 2] == 'i' && s[q + 3] == 't'
    requires forall j | q + 4 <= j < g :: IsSpace(s[j])
    requires forall j | g <= j < e :: IsDigit(s[j])
    requires e == |s| || e == g + 2 || !IsDigit(s[e])
    ensures MatchAt(TocUnitPattern(), s, q) == Some(Hit(e, []))
  {
    var p4 := [Spaces, Digits12(false)];
    var p3 := [Lit('t')] + p4;
    var p2 := [Lit('i')] + p3;
    var p1 := [Lit('n')] + p2;
    var p0 := [Lit('u')] + p1;
    TocGapAt(s, q + 4, g, e);
    assert p3[1..] == p4;
    LitStep(p3, s, q + 3, 't');
    assert p2[1..] == p3;
    LitStep(p2, s, q + 2, 'i');
    assert p1[1..] == p2;
    LitStep(p1, s, q + 1, 'n');
    assert p0[1..] == p1;
    LitStep(p0, s, q, 'u');
    TocPatternShape();
    assert p0 == TocUnitPattern();
  }

  /** A "unit N" heading at `q`, with no `u` between `i` and `q`: `findall`
      from `i` returns that heading first and goes on after it. */
  lemma TocHeadingNext(s: string, i: nat, q: nat, g: nat, e: nat)
    requires i <= q && q + 4 <= g < e <= |s| && e <= g + 2
    requires forall j | i <= j < q :: Lower(s[j]) != 'u'
    requires s[q] == 'u' && s[q + 1] == 'n' && s[q + 2] == 'i' && s[q + 3] == 't'
    requires forall j | q + 4 <= j < g :: IsSpace(s[j])
    requires forall j | g <= j < e :: IsDigit(s[j])
    requires e == |s| || e == g + 2 || !IsDigit(s[e])
    ensures FindAllFrom(TocUnitPattern(), s, i) == [s[q..e]] + FindAllFrom(TocUnitPattern(), s, e)
  {
    TocHeadingAt(s, q, g, e);
    TocPatternShape();
    FoundAt(TocUnitPattern(), s, i, q, 'u', Hit(e, []));
  }

  /** A text without the character `c` does not contain a word with it. */
  lemma LacksChar(s: string, t: string, c: char)
    requires c in t && forall k | 0 <= k < |s| :: s[k] != c
    ensures !Contains(s, t)
  {
    var m :| 0 <= m < |t| && t[m] == c;
    forall i | 0 <= i <= |s| ensures !OccursAt(s, t, i) {
      if i + |t| <= |s| {
        assert s[i..i + |t|][m] == s[i + m];
      }
    }
  }

  /** `findall` from the end of the text finds nothing. */
  lemma TocFindAllEnd(s: string)
    ensures FindAllFrom(TocUnitPattern(), s, |s|) == []
  {
    assert MatchAt(TocUnitPattern(), s, |s|).None?;
  }

  // The headings of two sample pages, one `findall` step at a time.

  lemma ThreeHeadings0(s: string)
    requires s == "unit 1 unit1 unit 2"
    ensures FindAllFrom(TocUnitPattern(), s, 0) == [s[0..6]] + FindAllFrom(TocUnitPattern(), s, 6)
  {
    TocHeadingNext(s, 0, 0, 5, 6);
  }

  lemma ThreeHeadings1(s: string)
    requires s == "unit 1 unit1 unit 2"
    ensures FindAllFrom(TocUnitPattern(), s, 6) == [s[7..12]] + FindAllFrom(TocUnitPattern(), s, 12)
  {
    TocHeadingNext(s, 6, 7, 11, 12);
  }

  lemma ThreeHeadings2(s: string)
    requires s == "unit 1 unit1 unit 2"
    ensures FindAllFrom(TocUnitPattern(), s, 12) == [s[13..19]] + FindAllFrom(TocUnitPattern(), s, 19)
  {
    TocHeadingNext(s, 12, 13, 18, 19);
  }

  lemma TwoHeadings0(s: string)
    requires s == "unit 1 unit 2 unit 1"
    ensures FindAllFrom(TocUnitPattern(), s, 0) == [s[0..6]] + FindAllFrom(TocUnitPattern(), s, 6)
  {
    TocHeadingNext(s, 0, 0, 5, 6);
  }

  lemma TwoHeadings1(s: string)
    requires s == "unit 1 unit 2 unit 1"
    ensures FindAllFrom(TocUnitPattern(), s, 6) == [s[7..13]] + FindAllFrom(TocUnitPattern(), s, 13)
  {
    TocHeadingNext(s, 6, 7, 12, 13);
  }

  lemma TwoHeadings2(s: string)
    requires s == "unit 1 unit 2 unit 1"
    ensures FindAllFrom(TocUnitPattern(), s, 13) == [s[14..20]] + FindAllFrom(TocUnitPattern(), s, 20)
  {
    TocHeadingNext(s, 13, 14, 19, 20);
  }

  /** Three different headings make three. */
  lemma DistinctThree(a: string, b: string, c: string)
    requires a != b && b != c && a != c
    ensures |Distinct([a, b, c])| == 3
  {
    var ms := [a, b, c];
    assert ms[0] == a && ms[1] == b && ms[2] == c;
    assert Distinct(ms) == {a, b, c};
  }

  /** A heading seen twice counts once. */
  lemma DistinctRepeat(a: string, b: string)
    requires a != b
    ensures |Distinct([a, b, a])| == 2
  {
    var ms := [a, b, a];
    assert ms[0] == a && ms[1] == b && ms[2] == a;
    assert Distinct(ms) == {a, b};
  }

  lemma ThreeHeadingsFound(s: string)
    requires s == "unit 1 unit1 unit 2"
    ensures FindAllFrom(TocUnitPattern(), s, 0) == [s[0..6], s[7..12], s[13..19]]
  {
    ThreeHeadings0(s);
    ThreeHeadings1(s);
    ThreeHeadings2(s);
    TocFindAllEnd(s);
  }

  lemma TwoHeadingsFound(s: string)
    requires s == "unit 1 unit 2 unit 1"
    ensures FindAllFrom(TocUnitPattern(), s, 0) == [s[0..6], s[7..13], s[14..20]]
  {
    TwoHeadings0(s);
    TwoHeadings1(s);
    TwoHeadings2(s);
    TocFindAllEnd(s);
  }

  /** No keyword, but three different headings: "unit 1" and "unit1" count
      as two, so the page is a table of contents. */
  lemma ThreeHeadingsToc(s: string)
    requires s == "unit 1 unit1 unit 2"
    ensures IsTocPage(s)
  {
    assert LowerStr(s) == s;
    var a, b, c := s[0..6], s[7..12], s[13..19];
    assert a != b && b != c && a[5] != c[5];
    ThreeHeadingsFound(s);
    DistinctThree(a, b, c);
  }

  lemma TwoHeadingsNoKeyword(s: string)
    requires s == "unit 1 unit 2 unit 1"
    ensures LowerStr(s) == s
    ensures forall j | 0 <= j < |TocKeywords| :: !Contains(s, TocKeywords[j])
  {
    assert LowerStr(s) == s;
    LacksChar(s, TocKeywords[0], '목');
    LacksChar(s, TocKeywords[1], 'c');
    LacksChar(s, TocKeywords[2], 'c');
    LacksChar(s, TocKeywords[3], 'x');
  }

  /** Three headings of which only two differ, and no keyword: not a table
      of contents. */
  lemma TwoHeadingsNotToc(s: string)
    requires s == "unit 1 unit 2 unit 1"
    ensures !IsTocPage(s)
  {
    var a, b, c := s[0..6], s[7..13], s[14..20];
    assert a == c && a[5] != b[5];
    TwoHeadingsNoKeyword(s);
    TwoHeadingsFound(s);
    DistinctRepeat(a, b);
  }

  /** Any page mentioning "table of contents" already mentions "contents",
      so the third keyword never decides the outcome on its own. */
  lemma TocKeywordSubsumed(text: string)
    ensures Contains(LowerStr(text), "table of contents") ==> Contains(LowerStr(text), "contents")
  {
    var big := "table of contents";
    assert big[9..9 + 8] == "contents";
    if Contains(LowerStr(text), big) {
      ContainsInner(LowerStr(text), big, "contents", 9);
    }
  }

  // ---------------------------------------------------------------------
  // Per-page unit heading

  /** `u\s*n\s*i\s*t\s*[\.:∙-]?\s*(\d{1,2})` */
  function UnitPattern(): Pattern {
    [Lit('u'), Spaces, Lit('n'), Spaces, Lit('i'), Spaces, Lit('t'), Spaces,
     Opt(".:\U{2219}-"), Spaces, Digits12(true)]
  }

  /** What the scan sees on one page: nothing for a blank page or one without
      a heading, otherwise the heading's unit number. */
  function PageMarker(raw: string): (r: Option<nat>)
    ensures r.Some? ==> r.value < 100
    ensures Strip(raw) == [] ==> r.None?
  {
    if Strip(raw) == [] then None
    else
      var found := Search(UnitPattern(), NormalizeText(raw));
      if found.None? then None
      else
        HeadingGroup(found.value.groups);
        Some(DecimalValue(found.value.groups[0]))
  }

  lemma UnitPatternCaptures()
    ensures Captures(UnitPattern()) == [Digits12(true)]
  {
  }

  /** The one group of a heading match is one or two digits. */
  lemma HeadingGroup(gs: seq<string>)
    requires GroupsFit(UnitPattern(), gs)
    ensures |gs| == 1 && AllDigits(gs[0]) && DecimalValue(gs[0]) < 100
  {
    UnitPatternCaptures();
    DigitGroup(Digits12(true), gs[0]);
    TwoDigitsBelow100(gs[0]);
  }

  function Markers(texts: seq<string>): (ms: seq<Option<nat>>)
    ensures |ms| == |texts|
  {
    seq(|texts|, i requires 0 <= i < |texts| => PageMarker(texts[i]))
  }

  // ---------------------------------------------------------------------
  // The boundary scan

  /** The loop variables `unit_indices`, `unit_numbers`, `last_unit_num`
      and `first_unit_found`. */
  datatype ScanState = ScanState(indices: seq<nat>, numbers: seq<nat>, last: Option<nat>, firstFound: bool)

  const Initial: ScanState := ScanState([], [], None, false)

  /** One iteration of the scan, for page `i` with marker `m`. */
  function Step(st: ScanState, start: nat, i: nat, m: Option<nat>): ScanState {
    match m
    case None => st
    case Some(n) =>
      if !st.firstFound && i == start + 1 && |st.indices| == 0 then
        ScanState(st.indices + [start], st.numbers + [n], Some(n), true)
      else if Some(n) != st.last then
        ScanState(st.indices + [i], st.numbers + [n], Some(n), st.firstFound)
      else st
  }

  /** The scan state after pages `start .. k - 1`. */
  function ScanUpTo(ms: seq<Option<nat>>, start: nat, k: nat): ScanState
    requires k <= |ms|
    decreases k
  {
    if k <= start then Initial else Step(ScanUpTo(ms, start, k - 1), start, k - 1, ms[k - 1])
  }

  /** The last unit number seen on pages `start .. k - 1`. */
  function LastSeen(ms: seq<Option<nat>>, start: nat, k: nat): Option<nat>
    requires k <= |ms|
    decreases k
  {
    if k <= start then None else if ms[k - 1].Some? then ms[k - 1] else LastSeen(ms, start, k - 1)
  }

  /** Page `i` starts a unit: it shows a number other than the last one seen. */
  predicate IsChange(ms: seq<Option<nat>>, start: nat, i: nat)
    requires i < |ms|
  {
    start <= i && ms[i].Some? && ms[i] != LastSeen(ms, start, i)
  }

  /** The pages from `start` up to `k - 1` that start a unit, in order. */
  function ChangePoints(ms: seq<Option<nat>>, start: nat, k: nat): (cs: seq<nat>)
    requires k <= |ms|
    ensures forall j | 0 <= j < |cs| :: start <= cs[j] < k && ms[cs[j]].Some?
    decreases k
  {
    if k <= start then []
    else ChangePoints(ms, start, k - 1) + (if IsChange(ms, start, k - 1) then [k - 1] else [])
  }

  /** The change points are exactly the pages that start a unit, in
      increasing order. */
  lemma {:induction false} ChangePointsExact(ms: seq<Option<nat>>, start: nat, k: nat)
    requires k <= |ms|
    ensures var cs := ChangePoints(ms, start, k);
            StrictlyIncreasing(cs)
            && (forall j | 0 <= j < |cs| :: IsChange(ms, start, cs[j]))
            && (forall i | start <= i < k :: IsChange(ms, start, i) ==> i in cs)
    decreases k
  {
    if k > start {
      ChangePointsExact(ms, start, k - 1);
    }
  }

  /** The unit numbers read at the given pages. */
  function NumbersAt(ms: seq<Option<nat>>, cs: seq<nat>): (ns: seq<nat>)
    requires forall j | 0 <= j < |cs| :: cs[j] < |ms| && ms[cs[j]].Some?
    ensures |ns| == |cs| && forall j | 0 <= j < |cs| :: ns[j] == ms[cs[j]].value
  {
    if cs == [] then []
    else
      var n := |cs| - 1;
      assert forall j | 0 <= j < n :: cs[..n][j] == cs[j];
      NumbersAt(ms, cs[..n]) + [ms[cs[n]].value]
  }

  /** One more change point adds the number read there. */
  lemma NumbersAtSnoc(ms: seq<Option<nat>>, cs: seq<nat>, i: nat)
    requires forall j | 0 <= j < |cs| :: cs[j] < |ms| && ms[cs[j]].Some?
    requires i < |ms| && ms[i].Some?
    ensures NumbersAt(ms, cs + [i]) == NumbersAt(ms, cs) + [ms[i].value]
  {
    assert (cs + [i])[..|cs|] == cs;
  }

  /** The boundaries the scan records: the change points, except that a
      first heading on page `start + 1` starts its unit at `start`. */
  function Shifted(cs: seq<nat>, start: nat): seq<nat> {
    if cs != [] && cs[0] == start + 1 then [start] + cs[1..] else cs
  }

  /** The scan records exactly the change points, shifted by the first-page
      rule, with the number read at each; its `last` is the last number seen. */
  lemma {:induction false} ScanIsChangePoints(ms: seq<Option<nat>>, start: nat, k: nat)
    requires k <= |ms|
    ensures ScanMatches(ms, start, k)
    decreases k
  {
    if k > start {
      ScanIsChangePoints(ms, start, k - 1);
      if IsChange(ms, start, k - 1) {
        ScanAtChange(ms, start, k);
      } else {
        ScanElsewhere(ms, start, k);
      }
    }
  }

  /** The scan state after pages `start .. k - 1` records exactly the change
      points, shifted by the first-page rule, with the number read at each;
      its `last` is the last number seen. */
  predicate ScanMatches(ms: seq<Option<nat>>, start: nat, k: nat)
    requires k <= |ms|
  {
    var st := ScanUpTo(ms, start, k);
    var cs := ChangePoints(ms, start, k);
    st.indices == Shifted(cs, start)
    && st.numbers == NumbersAt(ms, cs)
    && st.last == LastSeen(ms, start, k)
    && (st.firstFound <==> cs != [] && cs[0] == start + 1)
  }

  /** The step at a change point appends it (or `start`, by the first-page
      rule) to the boundaries. */
  lemma ScanAtChange(ms: seq<Option<nat>>, start: nat, k: nat)
    requires 0 < k <= |ms| && IsChange(ms, start, k - 1) && ScanMatches(ms, start, k - 1)
    ensures ScanMatches(ms, start, k)
  {
    var i := k - 1;
    var prev := ScanUpTo(ms, start, i);
    var cs0 := ChangePoints(ms, start, i);
    var cs := ChangePoints(ms, start, k);
    assert ScanUpTo(ms, start, k) == Step(prev, start, i, ms[i]);
    assert cs == cs0 + [i];
    NumbersAtSnoc(ms, cs0, i);
    assert LastSeen(ms, start, k) == ms[i];
    if cs0 == [] {
      assert prev.indices == [];
      assert cs == [i];
    } else {
      assert prev.indices != [];
      assert cs[0] == cs0[0];
      assert Shifted(cs, start) == Shifted(cs0, start) + [i];
    }
  }

  /** A page that starts no unit leaves the scan state as it was. */
  lemma ScanElsewhere(ms: seq<Option<nat>>, start: nat, k: nat)
    requires start < k <= |ms| && !IsChange(ms, start, k - 1) && ScanMatches(ms, start, k - 1)
    ensures ScanMatches(ms, start, k)
  {
    var i := k - 1;
    var prev := ScanUpTo(ms, start, i);
    var cs0 := ChangePoints(ms, start, i);
    assert ScanUpTo(ms, start, k) == Step(prev, start, i, ms[i]);
    assert ChangePoints(ms, start, k) == cs0;
    if ms[i].Some? {
      if cs0 == [] {
        NoChangeNoneSeen(ms, start, i);
      }
      assert Step(prev, start, i, ms[i]) == prev;
    }
  }

  /** Before the first change point no number has been seen. */
  lemma {:induction false} NoChangeNoneSeen(ms: seq<Option<nat>>, start: nat, k: nat)
    requires k <= |ms| && ChangePoints(ms, start, k) == []
    ensures LastSeen(ms, start, k) == None
    decreases k
  {
    if k > start {
      assert ChangePoints(ms, start, k - 1) == [];
      NoChangeNoneSeen(ms, start, k - 1);
      assert !IsChange(ms, start, k - 1);
    }
  }

  /** The number at each change point differs from the one at the change
      point before it, and the last one is the last number seen. */
  predicate NumbersAlternate(ms: seq<Option<nat>>, start: nat, k: nat)
    requires k <= |ms|
  {
    var cs := ChangePoints(ms, start, k);
    var ns := NumbersAt(ms, cs);
    (cs != [] ==> LastSeen(ms, start, k) == Some(ns[|ns| - 1]))
    && forall j | 0 <= j < |ns| - 1 :: ns[j] != ns[j + 1]
  }

  lemma {:induction false} ChangeNumbersDiffer(ms: seq<Option<nat>>, start: nat, k: nat)
    requires k <= |ms|
    ensures NumbersAlternate(ms, start, k)
    decreases k
  {
    if k > start {
      ChangeNumbersDiffer(ms, start, k - 1);
      if IsChange(ms, start, k - 1) {
        AlternateAtChange(ms, start, k);
      } else {
        AlternateElsewhere(ms, start, k);
      }
    } else {
      assert ChangePoints(ms, start, k) == [];
    }
  }

  lemma AlternateAtChange(ms: seq<Option<nat>>, start: nat, k: nat)
    requires 0 < k <= |ms| && IsChange(ms, start, k - 1) && NumbersAlternate(ms, start, k - 1)
    ensures NumbersAlternate(ms, start, k)
  {
    var cs0 := ChangePoints(ms, start, k - 1);
    assert ChangePoints(ms, start, k) == cs0 + [k - 1];
    NumbersAtSnoc(ms, cs0, k - 1);
  }

  lemma AlternateElsewhere(ms: seq<Option<nat>>, start: nat, k: nat)
    requires start < k <= |ms| && !IsChange(ms, start, k - 1) && NumbersAlternate(ms, start, k - 1)
    ensures NumbersAlternate(ms, start, k)
  {
    var cs0 := ChangePoints(ms, start, k - 1);
    assert ChangePoints(ms, start, k) == cs0;
    if cs0 == [] && ms[k - 1].Some? {
      NoChangeNoneSeen(ms, start, k - 1);
    }
  }

  /** The first change point is the first page from `start` on that shows a number. */
  lemma {:induction false} FirstChangeIsFirstHeading(ms: seq<Option<nat>>, start: nat, k: nat)
    requires k <= |ms|
    ensures var cs := ChangePoints(ms, start, k);
            (cs == [] <==> forall i | start <= i < k :: ms[i].None?)
            && (cs != [] ==> ms[cs[0]].Some? && forall i | start <= i < cs[0] :: ms[i].None?)
    decreases k
  {
    if k > start {
      FirstChangeIsFirstHeading(ms, start, k - 1);
      var cs0 := ChangePoints(ms, start, k - 1);
      if cs0 == [] && ms[k - 1].Some? {
        NoChangeNoneSeen(ms, start, k - 1);
        assert IsChange(ms, start, k - 1);
      }
    }
  }

  // ---------------------------------------------------------------------
  // Unit lengths

  function Sum(xs: seq<int>): int {
    if xs == [] then 0 else xs[0] + Sum(xs[1..])
  }

  /** Consecutive differences: `[b[i + 1] - b[i] for i in range(len(b) - 1)]`. */
  function Gaps(b: seq<nat>): (r: seq<int>)
    ensures |b| > 0 ==> |r| == |b| - 1
  {
    if |b| == 0 then [] else seq(|b| - 1, i requires 0 <= i < |b| - 1 => b[i + 1] as int - b[i] as int)
  }

  /** The gaps add up to the distance from the first to the last entry. */
  lemma {:induction false} SumGaps(b: seq<nat>)
    requires |b| > 0
    ensures Sum(Gaps(b)) == b[|b| - 1] as int - b[0] as int
    decreases |b|
  {
    if |b| > 1 {
      SumGaps(b[1..]);
      assert Gaps(b) == [b[1] - b[0]] + Gaps(b[1..]);
    }
  }

  predicate StrictlyIncreasing(b: seq<nat>) {
    forall j, j' | 0 <= j < j' < |b| :: b[j] < b[j']
  }

  /** `total // k` pages per unit, with the remainder on the last unit. */
  function SplitEvenly(total: nat, k: nat): (r: seq<int>)
    requires k > 0
    ensures |r| == k
    ensures forall j | 0 <= j < k - 1 :: r[j] == total / k
    ensures r[k - 1] == total / k + total % k
  {
    seq(k, j requires 0 <= j < k => if j == k - 1 then total / k + total % k else total / k)
  }

  lemma {:induction false} SumConstant(xs: seq<int>, q: int)
    requires forall j | 0 <= j < |xs| :: xs[j] == q
    ensures Sum(xs) == |xs| * q
    decreases |xs|
  {
    if xs != [] {
      SumConstant(xs[1..], q);
    }
  }

  lemma {:induction false} SumSnoc(xs: seq<int>, x: int)
    ensures Sum(xs + [x]) == Sum(xs) + x
    decreases |xs|
  {
    if xs == [] {
      assert xs + [x] == [x];
    } else {
      assert (xs + [x])[1..] == xs[1..] + [x];
      SumSnoc(xs[1..], x);
    }
  }

  /** An even split loses no page. */
  lemma SplitEvenlySum(total: nat, k: nat)
    requires k > 0
    ensures Sum(SplitEvenly(total, k)) == total
  {
    var r := SplitEvenly(total, k);
    assert r == r[..k - 1] + [r[k - 1]];
    SumSnoc(r[..k - 1], r[k - 1]);
    SumConstant(r[..k - 1], total / k);
  }

  /** The user answered yes: `answer.strip().lower() == 'y'`. */
  predicate Yes(answer: string) {
    LowerStr(Strip(answer)) == "y"
  }

  /** The page the scan starts from: 1 when the first page looks like a
      table of contents and the user agrees to drop it. */
  function StartPage(texts: seq<string>, tocAnswer: string): (start: nat)
    requires texts != []
    ensures start <= 1 && start <= |texts|
    ensures start == 1 <==> IsTocPage(texts[0]) && Yes(tocAnswer)
  {
    if IsTocPage(texts[0]) && Yes(tocAnswer) then 1 else 0
  }

  /** The answer when no heading was found: the number of pages from
      `start` on as one unit, or an even split into the number of units the
      user types. A count of zero raises `ZeroDivisionError`, caught as a
      read failure (`[]`); a negative count gives `[]`; text that is not a
      number is reported and falls back to one unit. */
  function Fallback(total: nat, manualAnswer: string, countAnswer: string): seq<int> {
    if !Yes(manualAnswer) then [total]
    else match ParseInt(countAnswer)
      case None => [total]
      case Some(k) => if k <= 0 then [] else SplitEvenly(total, k)
  }

  /** `_extract_unit_page_lengths` on a PDF whose pages have the given
      texts. A PDF without pages fails at `pages[0]` and gives `[]`. */
  function UnitPageLengths(texts: seq<string>, tocAnswer: string, manualAnswer: string,
                           countAnswer: string): seq<int>
  {
    if texts == [] then []
    else Lengths(Markers(texts), StartPage(texts, tocAnswer), manualAnswer, countAnswer)
  }

  /** The lengths for pages with markers `ms`, scanned from `start`. */
  function Lengths(ms: seq<Option<nat>>, start: nat, manualAnswer: string, countAnswer: string): seq<int>
    requires start <= |ms|
  {
    var st := ScanUpTo(ms, start, |ms|);
    if st.indices == [] then Fallback(|ms| - start, manualAnswer, countAnswer)
    else Gaps(st.indices + [|ms|])
  }

  /** The scan loop over pages `start ..`, as the source runs it. */
  method ScanBoundaries(ms: seq<Option<nat>>, start: nat) returns (unitIndices: seq<nat>, unitNumbers: seq<nat>)
    requires start <= |ms|
    ensures var st := ScanUpTo(ms, start, |ms|);
            unitIndices == st.indices && unitNumbers == st.numbers
  {
    unitIndices := [];
    unitNumbers := [];
    var lastUnitNum: Option<nat> := None;
    var firstUnitFound := false;
    var i := start;
    while i < |ms|
      invariant start <= i <= |ms|
      invariant ScanState(unitIndices, unitNumbers, lastUnitNum, firstUnitFound) == ScanUpTo(ms, start, i)
    {
      var found := ms[i];
      if found.Some? {
        var unitNum := found.value;
        if !firstUnitFound && i == start + 1 && |unitIndices| == 0 {
          unitIndices := unitIndices + [start];
          unitNumbers := unitNumbers + [unitNum];
          lastUnitNum := Some(unitNum);
          firstUnitFound := true;
        } else if Some(unitNum) != lastUnitNum {
          unitIndices := unitIndices + [i];
          unitNumbers := unitNumbers + [unitNum];
          lastUnitNum := Some(unitNum);
        }
      }
      i := i + 1;
    }
  }

  /** The whole of `_extract_unit_page_lengths`: choose the first page,
      scan, then either take the gaps between unit starts or fall back. */
  method ExtractUnitPageLengths(texts: seq<string>, tocAnswer: string, manualAnswer: string,
                                countAnswer: string) returns (lengths: seq<int>)
    ensures lengths == UnitPageLengths(texts, tocAnswer, manualAnswer, countAnswer)
  {
    if texts == [] {
      return [];
    }
    var start := StartPage(texts, tocAnswer);
    lengths := LengthsFromMarkers(Markers(texts), start, manualAnswer, countAnswer);
  }

  /** Scan the page markers, then take the gaps between unit starts or
      fall back. */
  method LengthsFromMarkers(ms: seq<Option<nat>>, start: nat, manualAnswer: string, countAnswer: string)
    returns (lengths: seq<int>)
    requires start <= |ms|
    ensures lengths == Lengths(ms, start, manualAnswer, countAnswer)
  {
    var unitIndices, unitNumbers := ScanBoundaries(ms, start);
    if unitIndices == [] {
      return Fallback(|ms| - start, manualAnswer, countAnswer);
    }
    lengths := Gaps(unitIndices + [|ms|]);
  }

  // ---------------------------------------------------------------------
  // What the lengths promise

  /** The recorded boundaries rise strictly, lie in `start .. |ms| - 1`,
      and come with numbers that change at every boundary. */
  lemma ScanShape(ms: seq<Option<nat>>, start: nat)
    requires start <= |ms|
    ensures var st := ScanUpTo(ms, start, |ms|);
            |st.indices| == |st.numbers|
            && StrictlyIncreasing(st.indices)
            && (forall j | 0 <= j < |st.indices| :: start <= st.indices[j] < |ms|)
            && (forall j | 0 <= j < |st.numbers| - 1 :: st.numbers[j] != st.numbers[j + 1])
  {
    ScanIsChangePoints(ms, start, |ms|);
    ChangeNumbersDiffer(ms, start, |ms|);
    ChangePointsExact(ms, start, |ms|);
    ShiftedShape(ChangePoints(ms, start, |ms|), start, |ms|);
  }

  /** The first-page rule keeps rising boundaries rising and in range. */
  lemma ShiftedShape(cs: seq<nat>, start: nat, end: nat)
    requires StrictlyIncreasing(cs) && forall j | 0 <= j < |cs| :: start <= cs[j] < end
    ensures var b := Shifted(cs, start);
            |b| == |cs| && StrictlyIncreasing(b) && forall j | 0 <= j < |b| :: start <= b[j] < end
  {
    var b := Shifted(cs, start);
    if cs != [] && cs[0] == start + 1 {
      forall j, j' | 0 <= j < j' < |b| ensures b[j] < b[j'] {
        if j > 0 { assert b[j] == cs[j]; }
        assert b[j'] == cs[j'];
      }
    }
  }

  /** A heading first found on page `start + 1` opens its unit at `start`,
      so a cover or title page without a heading joins the first unit;
      otherwise the first unit starts at the first page with a heading. */
  lemma FirstBoundary(ms: seq<Option<nat>>, start: nat)
    requires start <= |ms|
    ensures var st := ScanUpTo(ms, start, |ms|);
            var first := FirstHeading(ms, start, start);
            (st.indices == [] <==> first.None?)
            && (first.Some? ==> st.indices[0] == if first.value == start + 1 then start else first.value)
  {
    ScanIsChangePoints(ms, start, |ms|);
    FirstChangeIsFirstHeading(ms, start, |ms|);
    var cs := ChangePoints(ms, start, |ms|);
    FirstHeadingIsFirst(ms, start, start);
    var first := FirstHeading(ms, start, start);

  }

  /** The first page from `i` on that shows a heading. */
  function FirstHeading(ms: seq<Option<nat>>, start: nat, i: nat): Option<nat>
    requires i <= |ms|
    decreases |ms| - i
  {
    if i == |ms| then None else if ms[i].Some? then Some(i) else FirstHeading(ms, start, i + 1)
  }

  lemma {:induction false} FirstHeadingIsFirst(ms: seq<Option<nat>>, start: nat, i: nat)
    requires i <= |ms|
    ensures var f := FirstHeading(ms, start, i);
            (f.None? ==> forall j | i <= j < |ms| :: ms[j].None?)
            && (f.Some? ==> (i <= f.value < |ms| && ms[f.value].Some?
                             && forall j | i <= j < f.value :: ms[j].None?))
    decreases |ms| - i
  {
    if i < |ms| && ms[i].None? {
      FirstHeadingIsFirst(ms, start, i + 1);
    }
  }

  /** When headings were found, the lengths are the gaps between the unit
      starts and the end of the PDF: every unit has at least one page, and
      together they cover exactly the pages from the first unit start on. */
  lemma LengthsWhenFound(ms: seq<Option<nat>>, start: nat, manualAnswer: string, countAnswer: string)
    requires start <= |ms|
    ensures var st := ScanUpTo(ms, start, |ms|);
            var r := Lengths(ms, start, manualAnswer, countAnswer);
            st.indices != [] ==>
              |r| == |st.indices|
              && (forall j | 0 <= j < |r| :: r[j] >= 1)
              && Sum(r) == |ms| - st.indices[0]
  {
    var st := ScanUpTo(ms, start, |ms|);
    ScanShape(ms, start);
    if st.indices != [] {
      GapsOfBoundaries(st.indices, |ms|);
    }
  }

  /** Boundaries that rise strictly and stay below `end` have gaps of at
      least one page that add up to the pages from the first one to `end`. */
  lemma GapsOfBoundaries(idx: seq<nat>, end: nat)
    requires idx != [] && StrictlyIncreasing(idx)
    requires forall j | 0 <= j < |idx| :: idx[j] < end
    ensures var r := Gaps(idx + [end]);
            |r| == |idx| && (forall j | 0 <= j < |r| :: r[j] >= 1) && Sum(r) == end - idx[0]
  {
    var b := idx + [end];
    SumGaps(b);
    var r := Gaps(b);
    forall j | 0 <= j < |r| ensures r[j] >= 1 {
      assert r[j] == b[j + 1] - b[j];
    }
  }

  /** The replies decide the fallback: all pages as one unit, nothing for a
      count that is not positive, or an even split that loses no page. */
  lemma FallbackLengths(total: nat, manualAnswer: string, countAnswer: string)
    ensures var r := Fallback(total, manualAnswer, countAnswer);
            (!Yes(manualAnswer) || ParseInt(countAnswer).None? ==> r == [total])
            && (Yes(manualAnswer) && ParseInt(countAnswer).Some? && ParseInt(countAnswer).value <= 0 ==> r == [])
            && (Yes(manualAnswer) && ParseInt(countAnswer).Some? && ParseInt(countAnswer).value > 0 ==>
                  |r| == ParseInt(countAnswer).value && Sum(r) == total)
  {
    var k := ParseInt(countAnswer);
    if Yes(manualAnswer) && k.Some? && k.value > 0 {
      SplitEvenlySum(total, k.value);
    }
  }

  /** A blank page or a page without a heading changes nothing in the scan. */
  lemma BlankPageInert(ms: seq<Option<nat>>, start: nat, k: nat)
    requires start <= k < |ms| && ms[k].None?
    ensures ScanUpTo(ms, start, k + 1) == ScanUpTo(ms, start, k)
  {
  }
}
