/** The decisions `ConfigManagerV5.get_user_input` takes between its prompts:
    the unit number in a path, the unit range of a review test, reconciling
    unit counts across categories, combining several whole-book files into
    one category, de-duplicating per-unit test files, and the two typed
    selections (which zip files to extract, the merge order). Every answer
    the user types is a parameter. */
module ConfigV5 {
  import opened Strings
  import opened Regex
  import opened Paths

  // ---------------------------------------------------------------------
  // Unit number of a path

  /** `unit[ _-]?(\d{1,2})`, ignoring case. */
  function UnitNumberPattern(): Pattern {
    [Lit('u'), Lit('n'), Lit('i'), Lit('t'), Opt(" _-"), Digits12(true)]
  }

  /** The one group of a match is one or two digits. */
  lemma UnitNumberGroup(gs: seq<string>)
    requires GroupsFit(UnitNumberPattern(), gs)
    ensures |gs| == 1 && AllDigits(gs[0]) && DecimalValue(gs[0]) < 100
  {
    assert Captures(UnitNumberPattern()) == [Digits12(true)];
    DigitGroup(Digits12(true), gs[0]);
    TwoDigitsBelow100(gs[0]);
  }

  /** `_extract_unit_number`: the number captured by the first match
      anywhere in the path, or 0 when there is none. */
  function ExtractUnitNumber(path: string): (n: nat)
    ensures n < 100
    ensures Search(UnitNumberPattern(), path).None? ==> n == 0
  {
    match Search(UnitNumberPattern(), path)
    case None => 0
    case Some(m) =>
      UnitNumberGroup(m.groups);
      DecimalValue(m.groups[0])
  }

  /** The four letters of `unit`, in any case, at `a`, let a match of `p`
      go on from `a + 4`. */
  lemma {:induction false} UnitWord(p: Pattern, s: string, a: nat, w: string)
    requires |p| >= 4 && p[..4] == [Lit('u'), Lit('n'), Lit('i'), Lit('t')]
    requires LowerStr(w) == "unit" && OccursAt(s, w, a)
    requires MatchAt(p[4..], s, a + 4).Some?
    ensures MatchAt(p, s, a) == MatchAt(p[4..], s, a + 4)
  {
    assert Lower(s[a]) == 'u' && Lower(s[a + 1]) == 'n' && Lower(s[a + 2]) == 'i' && Lower(s[a + 3]) == 't' by {
      assert s[a..a + 4][0] == s[a] && s[a..a + 4][1] == s[a + 1];
      assert s[a..a + 4][2] == s[a + 2] && s[a..a + 4][3] == s[a + 3];
      assert LowerStr(w)[0] == Lower(w[0]) && LowerStr(w)[1] == Lower(w[1]);
      assert LowerStr(w)[2] == Lower(w[2]) && LowerStr(w)[3] == Lower(w[3]);
    }
    assert p[3..][1..] == p[4..] && p[2..][1..] == p[3..] && p[1..][1..] == p[2..];
    LitStep(p[3..], s, a + 3, 't');
    LitStep(p[2..], s, a + 2, 'i');
    LitStep(p[1..], s, a + 1, 'n');
    LitStep(p, s, a, 'u');
  }

  /** Digits at `a` that end the text or are followed by a non-digit are
      exactly what a final `(\d{1,2})` captures. */
  lemma DigitsTail(p: Pattern, s: string, a: nat, ds: string)
    requires p == [Digits12(true)]
    requires 1 <= |ds| <= 2 && AllDigits(ds) && OccursAt(s, ds, a)
    requires a + |ds| == |s| || !IsDigit(s[a + |ds|])
    ensures MatchAt(p, s, a) == Some(Hit(a + |ds|, [ds]))
  {
    forall j | a <= j < a + |ds| ensures InClass(p[0].k, s[j]) {
      assert s[j] == s[a..a + |ds|][j - a] == ds[j - a];
    }
    RunExact(p[0].k, s, a, p[0].hi, |ds|);
    assert MatchAt(p[1..], s, a + |ds|) == Some(Hit(a + |ds|, []));
    RepStep(p, s, a, |ds|);
    assert s[a..a + |ds|] == ds;
    assert [ds] + [] == [ds];
  }

  /** An occurrence of `x + y` is an occurrence of `x` followed by one of `y`. */
  lemma AtConcat(s: string, a: nat, x: string, y: string)
    requires OccursAt(s, x + y, a)
    ensures OccursAt(s, x, a) && OccursAt(s, y, a + |x|)
  {
    assert s[a..a + |x|] == s[a..a + |x| + |y|][..|x|];
    assert s[a + |x|..a + |x| + |y|] == s[a..a + |x| + |y|][|x|..];
  }

  /** `[ _-]?(\d{1,2})` at `a` over an optional separator and the digits. */
  lemma UnitNumberTail(p: Pattern, s: string, a: nat, sep: string, ds: string)
    requires p == [Opt(" _-"), Digits12(true)]
    requires |sep| <= 1 && (forall c | c in sep :: c in " _-") && OccursAt(s, sep, a)
    requires 1 <= |ds| <= 2 && AllDigits(ds) && OccursAt(s, ds, a + |sep|)
    requires a + |sep| + |ds| == |s| || !IsDigit(s[a + |sep| + |ds|])
    ensures MatchAt(p, s, a) == Some(Hit(a + |sep| + |ds|, [ds]))
  {
    DigitsTail(p[1..], s, a + |sep|, ds);
    SeparatorRun(s, a, sep, ds);
    SkipStep(p, s, a, |sep|);
  }

  /** `[ _-]?` before a digit takes exactly the separator. */
  lemma SeparatorRun(s: string, a: nat, sep: string, ds: string)
    requires |sep| <= 1 && (forall c | c in sep :: c in " _-") && OccursAt(s, sep, a)
    requires 1 <= |ds| && AllDigits(ds) && OccursAt(s, ds, a + |sep|)
    ensures Run(Opt(" _-").k, s, a, Opt(" _-").hi) == |sep|
  {
    var d := a + |sep|;
    assert LowerStr(" _-") == " _-";
    assert IsDigit(s[d]) by { assert s[d] == s[d..d + |ds|][0] == ds[0]; }
    forall j | a <= j < d ensures InClass(Opt(" _-").k, s[j]) {
      assert s[j] == s[a..a + |sep|][0] == sep[0] && sep[0] in sep;
    }
    RunExact(Opt(" _-").k, s, a, Opt(" _-").hi, |sep|);
  }

  /** Where the five pieces of `a + b + c + d + e` start. */
  lemma AtPieces(a: string, b: string, c: string, d: string, e: string)
    ensures var s := a + b + c + d + e;
            OccursAt(s, b, |a|) && OccursAt(s, c, |a| + |b|) && OccursAt(s, d, |a| + |b| + |c|)
            && OccursAt(s, e, |a| + |b| + |c| + |d|)
  {
    var s := a + b + c + d + e;
    assert OccursAt(s, s, 0);
    AtConcat(s, 0, a + b + c + d, e);
    AtConcat(s, 0, a + b + c, d);
    AtConcat(s, 0, a + b, c);
    AtConcat(s, 0, a, b);
  }

  /** The match that `UnitNumberOfName` describes, located by indices. */
  lemma UnitNumberAt(s: string, q: nat, w: string, sep: string, ds: string)
    requires LowerStr(w) == "unit" && OccursAt(s, w, q)
    requires forall k | 0 <= k < q :: Lower(s[k]) != 'u'
    requires |sep| <= 1 && (forall c | c in sep :: c in " _-") && OccursAt(s, sep, q + 4)
    requires 1 <= |ds| <= 2 && AllDigits(ds) && OccursAt(s, ds, q + 4 + |sep|)
    requires q + 4 + |sep| + |ds| == |s| || !IsDigit(s[q + 4 + |sep| + |ds|])
    ensures ExtractUnitNumber(s) == DecimalValue(ds)
  {
    var h := Hit(q + 4 + |sep| + |ds|, [ds]);
    UnitMatchAt(s, q, w, sep, ds);
    FirstUnitNumber(s, q, h);
  }

  /** `unit`, the separator and the digits match at `q`. */
  lemma UnitMatchAt(s: string, q: nat, w: string, sep: string, ds: string)
    requires LowerStr(w) == "unit" && OccursAt(s, w, q)
    requires |sep| <= 1 && (forall c | c in sep :: c in " _-") && OccursAt(s, sep, q + 4)
    requires 1 <= |ds| <= 2 && AllDigits(ds) && OccursAt(s, ds, q + 4 + |sep|)
    requires q + 4 + |sep| + |ds| == |s| || !IsDigit(s[q + 4 + |sep| + |ds|])
    ensures MatchAt(UnitNumberPattern(), s, q) == Some(Hit(q + 4 + |sep| + |ds|, [ds]))
  {
    UnitNumberTailAt(s, q + 4, sep, ds);
    UnitWord(UnitNumberPattern(), s, q, w);
  }

  lemma UnitNumberTailAt(s: string, a: nat, sep: string, ds: string)
    requires |sep| <= 1 && (forall c | c in sep :: c in " _-") && OccursAt(s, sep, a)
    requires 1 <= |ds| <= 2 && AllDigits(ds) && OccursAt(s, ds, a + |sep|)
    requires a + |sep| + |ds| == |s| || !IsDigit(s[a + |sep| + |ds|])
    ensures MatchAt(UnitNumberPattern()[4..], s, a) == Some(Hit(a + |sep| + |ds|, [ds]))
  {
    var p := UnitNumberPattern()[4..];
    assert p == [Opt(" _-"), Digits12(true)];
    UnitNumberTail(p, s, a, sep, ds);
  }

  /** The first match, at `q`, gives the unit number. */
  lemma FirstUnitNumber(s: string, q: nat, h: Hit)
    requires q <= |s| && forall k | 0 <= k < q :: Lower(s[k]) != 'u'
    requires MatchAt(UnitNumberPattern(), s, q) == Some(h) && |h.groups| == 1 && AllDigits(h.groups[0])
    ensures ExtractUnitNumber(s) == DecimalValue(h.groups[0])
  {
    FoundAt(UnitNumberPattern(), s, 0, q, 'u', h);
  }

  /** A path whose first `u` (in any case) begins `unit`, followed by at
      most one of ` `, `_`, `-` and then one or two digits that are not
      followed by a third, has that number as its unit number. */
  lemma UnitNumberOfName(pre: string, w: string, sep: string, ds: string, rest: string)
    requires forall k | 0 <= k < |pre| :: Lower(pre[k]) != 'u'
    requires LowerStr(w) == "unit"
    requires |sep| <= 1 && forall c | c in sep :: c in " _-"
    requires 1 <= |ds| <= 2 && AllDigits(ds)
    requires rest == [] || !IsDigit(rest[0])
    ensures ExtractUnitNumber(pre + w + sep + ds + rest) == DecimalValue(ds)
  {
    var s := pre + w + sep + ds + rest;
    var e := |pre| + 4 + |sep| + |ds|;
    AtPieces(pre, w, sep, ds, rest);
    PrefixOf(s, pre);
    assert e == |s| || s[e] == s[e..e + |rest|][0] == rest[0];
    UnitNumberAt(s, |pre|, w, sep, ds);
  }

  /** Text that begins with `pre` agrees with it on its first characters. */
  lemma PrefixOf(s: string, pre: string)
    requires |pre| <= |s| && s[..|pre|] == pre
    ensures forall k | 0 <= k < |pre| :: s[k] == pre[k]
  {
    forall k | 0 <= k < |pre| ensures s[k] == pre[k] {
      assert s[..|pre|][k] == s[k];
    }
  }

  // ---------------------------------------------------------------------
  // Unit range of a review test

  datatype UnitRange = UnitRange(start: nat, end: nat)

  /** `Units?[\s_]*(\d{1,2})[\s\-~]+(\d{1,2})`, ignoring case. */
  function ReviewRangePattern(): Pattern {
    [Lit('u'), Lit('n'), Lit('i'), Lit('t'), Opt("s"),
     Rep(Class("_", true, false), 0, None, false), Digits12(true),
     Rep(Class("-~", true, false), 1, None, false), Digits12(true)]
  }

  /** The two groups of a match are one or two digits each. */
  lemma ReviewRangeGroups(gs: seq<string>)
    requires GroupsFit(ReviewRangePattern(), gs)
    ensures |gs| == 2 && AllDigits(gs[0]) && AllDigits(gs[1])
    ensures DecimalValue(gs[0]) < 100 && DecimalValue(gs[1]) < 100
  {
    assert Captures(ReviewRangePattern()) == [Digits12(true), Digits12(true)];
    DigitGroup(Digits12(true), gs[0]);
    DigitGroup(Digits12(true), gs[1]);
    TwoDigitsBelow100(gs[0]);
    TwoDigitsBelow100(gs[1]);
  }

  /** The units a review test covers, read from its file name; without a
      range in the name it covers the last unit only. */
  function ReviewRange(fileName: string, totalUnits: nat): (r: UnitRange)
    ensures Search(ReviewRangePattern(), fileName).None? ==> r == UnitRange(totalUnits, totalUnits)
    ensures Search(ReviewRangePattern(), fileName).Some? ==> r.start < 100 && r.end < 100
  {
    match Search(ReviewRangePattern(), fileName)
    case None => UnitRange(totalUnits, totalUnits)
    case Some(m) =>
      ReviewRangeGroups(m.groups);
      UnitRange(DecimalValue(m.groups[0]), DecimalValue(m.groups[1]))
  }

  /** A name like `Review Units 3-4.pdf`, whose first `u` begins the word
      `unit`, yields the two numbers it shows. */
  lemma ReviewRangeOfName(pre: string, w: string, plural: string, gap: string, ds1: string,
                          dash: string, ds2: string, rest: string, totalUnits: nat)
    requires forall k | 0 <= k < |pre| :: Lower(pre[k]) != 'u'
    requires LowerStr(w) == "unit"
    requires plural == [] || plural == "s" || plural == "S"
    requires forall c | c in gap :: IsSpace(c) || c == '_'
    requires 1 <= |ds1| <= 2 && AllDigits(ds1)
    requires dash != [] && forall c | c in dash :: IsSpace(c) || c == '-' || c == '~'
    requires 1 <= |ds2| <= 2 && AllDigits(ds2)
    requires rest == [] || !IsDigit(rest[0])
    ensures ReviewRange(pre + w + plural + gap + ds1 + dash + ds2 + rest, totalUnits)
            == UnitRange(DecimalValue(ds1), DecimalValue(ds2))
  {
    var s := pre + w + plural + gap + ds1 + dash + ds2 + rest;
    ReviewPieces(pre, w, plural, gap, ds1, dash, ds2, rest);
    assert forall k | 0 <= k < |pre| :: Lower(s[k]) != 'u';
    assert HeadAt(s, |pre|, w, plural, gap);
    assert NumbersFrom(s, |pre| + 4 + |plural| + |gap|, ds1, dash, ds2);
    ReviewRangeIn(s, |pre|, w, plural, gap, ds1, dash, ds2, totalUnits);
  }

  /** `unit`, an optional plural `s` and a gap of blanks or underscores
      stand in `s` from `q` on. */
  predicate HeadAt(s: string, q: nat, w: string, plural: string, gap: string) {
    && LowerStr(w) == "unit"
    && (plural == [] || plural == "s" || plural == "S")
    && (forall c | c in gap :: IsSpace(c) || c == '_')
    && OccursAt(s, w, q) && OccursAt(s, plural, q + 4) && OccursAt(s, gap, q + 4 + |plural|)
  }

  /** One or two digits, a separator of blanks, `-` or `~`, and one or two
      digits stand in `s` from `d1` on, and no digit follows them. */
  predicate NumbersFrom(s: string, d1: nat, ds1: string, dash: string, ds2: string) {
    && 1 <= |ds1| <= 2 && AllDigits(ds1)
    && dash != [] && (forall c | c in dash :: IsSpace(c) || c == '-' || c == '~')
    && 1 <= |ds2| <= 2 && AllDigits(ds2)
    && OccursAt(s, ds1, d1) && OccursAt(s, dash, d1 + |ds1|) && OccursAt(s, ds2, d1 + |ds1| + |dash|)
    && var e := d1 + |ds1| + |dash| + |ds2|; e == |s| || !IsDigit(s[e])
  }

  /** The same, for a name already known to consist of those pieces at those places. */
  lemma ReviewRangeIn(s: string, q: nat, w: string, plural: string, gap: string, ds1: string,
                      dash: string, ds2: string, totalUnits: nat)
    requires q <= |s| && forall k | 0 <= k < q :: Lower(s[k]) != 'u'
    requires HeadAt(s, q, w, plural, gap) && NumbersFrom(s, q + 4 + |plural| + |gap|, ds1, dash, ds2)
    ensures ReviewRange(s, totalUnits) == UnitRange(DecimalValue(ds1), DecimalValue(ds2))
  {
    var d1 := q + 4 + |plural| + |gap|;
    var hit := Hit(d1 + |ds1| + |dash| + |ds2|, [ds1, ds2]);
    NumbersAt(s, d1, ds1, dash, ds2);
    OccursFirst(s, ds1, d1);
    FrontAt(ReviewRangePattern(), s, q, w, plural, gap, hit);
    FirstReviewRange(s, q, hit, totalUnits);
  }

  /** Where each piece of a review file name starts. */
  lemma ReviewPieces(pre: string, w: string, plural: string, gap: string, ds1: string,
                     dash: string, ds2: string, rest: string)
    requires |w| == 4 && (rest == [] || !IsDigit(rest[0]))
    ensures var s := pre + w + plural + gap + ds1 + dash + ds2 + rest;
            var d1 := |pre| + 4 + |plural| + |gap|;
            var e := d1 + |ds1| + |dash| + |ds2|;
            (forall k | 0 <= k < |pre| :: s[k] == pre[k])
            && OccursAt(s, w, |pre|) && OccursAt(s, plural, |pre| + 4) && OccursAt(s, gap, |pre| + 4 + |plural|)
            && OccursAt(s, ds1, d1) && OccursAt(s, dash, d1 + |ds1|) && OccursAt(s, ds2, d1 + |ds1| + |dash|)
            && (e == |s| || !IsDigit(s[e]))
  {
    HeadPieces(pre, w, plural, gap, ds1, dash, ds2, rest);
    NumberPieces(pre + w + plural + gap, ds1, dash, ds2, rest);
    var p6 := pre + w + plural + gap + ds1 + dash + ds2;
    assert |p6| == |pre| + 4 + |plural| + |gap| + |ds1| + |dash| + |ds2|;
    assert |p6| == |p6 + rest| || (p6 + rest)[|p6|] == rest[0];
  }

  /** The prefix, the word and what follows it up to the first number. */
  lemma HeadPieces(pre: string, w: string, plural: string, gap: string, ds1: string,
                   dash: string, ds2: string, rest: string)
    requires |w| == 4
    ensures var s := pre + w + plural + gap + ds1 + dash + ds2 + rest;
            (forall k | 0 <= k < |pre| :: s[k] == pre[k])
            && OccursAt(s, w, |pre|) && OccursAt(s, plural, |pre| + 4) && OccursAt(s, gap, |pre| + 4 + |plural|)
  {
    var p1 := pre + w;
    var p2 := p1 + plural;
    var p3 := p2 + gap;
    OccursTail(pre, w); OccursTail(p1, plural); OccursTail(p2, gap);
    OccursExtend(p1, plural, w, |pre|);
    OccursExtend(p2, gap, w, |pre|);
    OccursExtend(p2, gap, plural, |p1|);
    ExtendThree(p3, ds1, dash, ds2, rest, w, |pre|);
    ExtendThree(p3, ds1, dash, ds2, rest, plural, |p1|);
    ExtendThree(p3, ds1, dash, ds2, rest, gap, |p2|);
    PrefixOf(p3 + ds1 + dash + ds2 + rest, pre);
  }

  /** The two numbers and the separator between them, after a head `p3`. */
  lemma NumberPieces(p3: string, ds1: string, dash: string, ds2: string, rest: string)
    ensures var s := p3 + ds1 + dash + ds2 + rest;
            OccursAt(s, ds1, |p3|) && OccursAt(s, dash, |p3| + |ds1|) && OccursAt(s, ds2, |p3| + |ds1| + |dash|)
  {
    var p4 := p3 + ds1;
    var p5 := p4 + dash;
    var p6 := p5 + ds2;
    OccursTail(p3, ds1); OccursTail(p4, dash); OccursTail(p5, ds2);
    OccursExtend(p4, dash, ds1, |p3|);
    OccursExtend(p5, ds2, ds1, |p3|);
    OccursExtend(p6, rest, ds1, |p3|);
    OccursExtend(p5, ds2, dash, |p4|);
    OccursExtend(p6, rest, dash, |p4|);
    OccursExtend(p6, rest, ds2, |p5|);
  }

  lemma ExtendThree(p3: string, ds1: string, dash: string, ds2: string, rest: string, t: string, i: nat)
    requires OccursAt(p3, t, i)
    ensures OccursAt(p3 + ds1 + dash + ds2 + rest, t, i)
  {
    OccursExtend(p3, ds1, t, i);
    OccursExtend(p3 + ds1, dash, t, i);
    OccursExtend(p3 + ds1 + dash, ds2, t, i);
    OccursExtend(p3 + ds1 + dash + ds2, rest, t, i);
  }

  /** `b` occurs in `a + b` right after `a`. */
  lemma OccursTail(a: string, b: string)
    ensures OccursAt(a + b, b, |a|)
  {
    assert (a + b)[|a|..|a| + |b|] == b;
  }

  /** A non-empty occurrence starts with the first character of what occurs. */
  lemma OccursFirst(s: string, t: string, i: nat)
    requires OccursAt(s, t, i) && t != []
    ensures i < |s| && s[i] == t[0]
  {
    assert s[i] == s[i..i + |t|][0];
  }

  /** An occurrence in `a` is one in `a + b` too. */
  lemma OccursExtend(a: string, b: string, t: string, i: nat)
    requires OccursAt(a, t, i)
    ensures OccursAt(a + b, t, i)
  {
    assert (a + b)[i..i + |t|] == a[i..i + |t|];
  }

  /** From `(\d{1,2})` on, over the two numbers and what separates them. */
  lemma NumbersAt(s: string, d1: nat, ds1: string, dash: string, ds2: string)
    requires NumbersFrom(s, d1, ds1, dash, ds2)
    ensures MatchAt(ReviewRangePattern()[6..], s, d1) == Some(Hit(d1 + |ds1| + |dash| + |ds2|, [ds1, ds2]))
  {
    var h := d1 + |ds1|;
    var d2 := h + |dash|;
    var e := d2 + |ds2|;
    SecondNumberAt(s, d2, ds2);
    assert IsDigit(s[d2]) by { assert s[d2] == s[d2..d2 + |ds2|][0] == ds2[0]; }
    DashAt(s, h, dash, Hit(e, [ds2]));
    assert !IsDigit(s[h]) by { assert s[h] == s[h..h + |dash|][0] == dash[0] && dash[0] in dash; }
    FirstNumberAt(s, d1, ds1, Hit(e, [ds2]));
    assert [ds1] + [ds2] == [ds1, ds2];
  }

  lemma ReviewPatternHead(p: Pattern)
    requires |p| >= 6 && p[..6] == ReviewRangePattern()[..6]
    ensures p[..4] == [Lit('u'), Lit('n'), Lit('i'), Lit('t')]
  {
    assert p[..4] == p[..6][..4];
    assert ReviewRangePattern()[..6][..4] == [Lit('u'), Lit('n'), Lit('i'), Lit('t')];
  }

  /** `Units?[\s_]*` in front of the numbers. */
  lemma FrontAt(p: Pattern, s: string, q: nat, w: string, plural: string, gap: string, hit: Hit)
    requires |p| >= 6 && p[..6] == ReviewRangePattern()[..6]
    requires HeadAt(s, q, w, plural, gap)
    requires var d1 := q + 4 + |plural| + |gap|; d1 < |s| && IsDigit(s[d1])
    requires MatchAt(p[6..], s, q + 4 + |plural| + |gap|) == Some(hit)
    ensures MatchAt(p, s, q) == Some(hit)
  {
    AfterWordAt(p, s, q + 4, plural, gap, hit);
    ReviewPatternHead(p);
    UnitWord(p, s, q, w);
  }

  /** Over the optional plural `s` and the gap, from just after `unit`. */
  lemma AfterWordAt(p: Pattern, s: string, a: nat, plural: string, gap: string, hit: Hit)
    requires |p| >= 6 && p[..6] == ReviewRangePattern()[..6]
    requires (plural == [] || plural == "s" || plural == "S") && OccursAt(s, plural, a)
    requires (forall c | c in gap :: IsSpace(c) || c == '_') && OccursAt(s, gap, a + |plural|)
    requires a + |plural| + |gap| < |s| && IsDigit(s[a + |plural| + |gap|])
    requires MatchAt(p[6..], s, a + |plural| + |gap|) == Some(hit)
    ensures MatchAt(p[4..], s, a) == Some(hit)
  {
    var g := a + |plural|;
    GapAt(p, s, g, gap, hit);
    assert IsSpace(s[g]) || s[g] == '_' || IsDigit(s[g]) by {
      if gap != [] { assert s[g] == s[g..g + |gap|][0] == gap[0] && gap[0] in gap; }
    }
    PluralAt(p, s, a, plural, hit);
  }

  /** `p[i..]` starts with `p[i]` and continues with `p[i + 1..]`. */
  lemma SliceStep(p: Pattern, i: nat)
    requires i < |p|
    ensures p[i..] != [] && p[i..][0] == p[i] && p[i..][1..] == p[i + 1..]
  {
  }

  lemma SecondNumberAt(s: string, d2: nat, ds2: string)
    requires 1 <= |ds2| <= 2 && AllDigits(ds2) && OccursAt(s, ds2, d2)
    requires d2 + |ds2| == |s| || !IsDigit(s[d2 + |ds2|])
    ensures MatchAt(ReviewRangePattern()[8..], s, d2) == Some(Hit(d2 + |ds2|, [ds2]))
  {
    assert ReviewRangePattern()[8..] == [Digits12(true)];
    DigitsTail(ReviewRangePattern()[8..], s, d2, ds2);
  }

  lemma DashAt(s: string, h: nat, dash: string, hit: Hit)
    requires dash != [] && (forall c | c in dash :: IsSpace(c) || c == '-' || c == '~')
    requires OccursAt(s, dash, h) && h + |dash| < |s| && IsDigit(s[h + |dash|])
    requires MatchAt(ReviewRangePattern()[8..], s, h + |dash|) == Some(hit)
    ensures MatchAt(ReviewRangePattern()[7..], s, h) == Some(hit)
  {
    var p := ReviewRangePattern();
    SliceStep(p, 7);
    assert p[7] == Rep(Class("-~", true, false), 1, None, false);
    assert LowerStr("-~") == "-~";
    RepOver(p[7..], s, h, dash);
    assert [] + hit.groups == hit.groups;
  }

  lemma FirstNumberAt(s: string, d1: nat, ds1: string, hit: Hit)
    requires 1 <= |ds1| <= 2 && AllDigits(ds1) && OccursAt(s, ds1, d1)
    requires d1 + |ds1| < |s| && !IsDigit(s[d1 + |ds1|])
    requires MatchAt(ReviewRangePattern()[7..], s, d1 + |ds1|) == Some(hit)
    ensures MatchAt(ReviewRangePattern()[6..], s, d1) == Some(Hit(hit.end, [ds1] + hit.groups))
  {
    var p := ReviewRangePattern();
    SliceStep(p, 6);
    assert p[6] == Digits12(true);
    assert forall c | c in ds1 :: IsDigit(c);
    RepOver(p[6..], s, d1, ds1);
  }

  lemma GapAt(p: Pattern, s: string, g: nat, gap: string, hit: Hit)
    requires |p| >= 6 && p[..6] == ReviewRangePattern()[..6]
    requires (forall c | c in gap :: IsSpace(c) || c == '_') && OccursAt(s, gap, g)
    requires g + |gap| < |s| && IsDigit(s[g + |gap|])
    requires MatchAt(p[6..], s, g + |gap|) == Some(hit)
    ensures MatchAt(p[5..], s, g) == Some(hit)
  {
    assert p[5] == p[..6][5];
    SliceStep(p, 5);
    assert p[5] == Rep(Class("_", true, false), 0, None, false);
    assert LowerStr("_") == "_";
    RepOver(p[5..], s, g, gap);
    assert [] + hit.groups == hit.groups;
  }

  lemma PluralAt(p: Pattern, s: string, a: nat, plural: string, hit: Hit)
    requires |p| >= 6 && p[..6] == ReviewRangePattern()[..6]
    requires (plural == [] || plural == "s" || plural == "S") && OccursAt(s, plural, a)
    requires a + |plural| < |s| && (IsSpace(s[a + |plural|]) || s[a + |plural|] == '_' || IsDigit(s[a + |plural|]))
    requires MatchAt(p[5..], s, a + |plural|) == Some(hit)
    ensures MatchAt(p[4..], s, a) == Some(hit)
  {
    assert p[4] == p[..6][4];
    SliceStep(p, 4);
    assert p[4] == Opt("s");
    assert LowerStr("s") == "s";
    assert forall c | c in plural :: InClass(p[4].k, c);
    RepOver(p[4..], s, a, plural);
    assert [] + hit.groups == hit.groups;
  }

  /** The first match, at `q`, gives the range. */
  lemma FirstReviewRange(s: string, q: nat, h: Hit, totalUnits: nat)
    requires q <= |s| && forall k | 0 <= k < q :: Lower(s[k]) != 'u'
    requires MatchAt(ReviewRangePattern(), s, q) == Some(h) && |h.groups| == 2
    requires AllDigits(h.groups[0]) && AllDigits(h.groups[1])
    ensures ReviewRange(s, totalUnits) == UnitRange(DecimalValue(h.groups[0]), DecimalValue(h.groups[1]))
  {
    FoundAt(ReviewRangePattern(), s, 0, q, 'u', h);
  }

  // ---------------------------------------------------------------------
  // Reconciling unit counts across categories

  /** The largest element of a non-empty list. */
  function Max(xs: seq<nat>): (m: nat)
    requires xs != []
    ensures m in xs && forall i | 0 <= i < |xs| :: xs[i] <= m
  {
    if |xs| == 1 then xs[0]
    else
      var r := Max(xs[1..]);
      assert forall i | 1 <= i < |xs| :: xs[i] == xs[1..][i - 1];
      if xs[0] >= r then xs[0] else r
  }

  /** `total_units`: the unit count when every category has the same one,
      otherwise the largest one, and 0 when there are no categories. The
      result is the largest count in every case. */
  function TotalUnits(counts: seq<nat>): (total: nat)
    ensures counts == [] ==> total == 0
    ensures counts != [] ==> total in counts && forall i | 0 <= i < |counts| :: counts[i] <= total
  {
    if |set c | c in counts| != 1 then (if counts == [] then 0 else Max(counts))
    else
      AllAgree(counts);
      counts[0]
  }

  /** A list with one distinct element is that element repeated. */
  lemma AllAgree(counts: seq<nat>)
    requires |set c | c in counts| == 1
    ensures counts != [] && forall i | 0 <= i < |counts| :: counts[i] == counts[0]
  {
    var d := set c | c in counts;
    var x :| x in d;
    assert |d - {x}| == 0;
    forall i | 0 <= i < |counts| ensures counts[i] == x {
      assert counts[i] in d;
    }
  }

  // ---------------------------------------------------------------------
  // Several whole-book files combined into one category

  /** One entry of `file_unit_info`. */
  datatype FileUnitInfo = FileUnitInfo(pdfPath: string, startUnitIndex: nat, unitCount: nat,
                                       unitPageLengths: seq<int>)

  /** The units of the given entries together. */
  function CountSum(infos: seq<FileUnitInfo>): nat {
    if infos == [] then 0 else CountSum(infos[..|infos| - 1]) + infos[|infos| - 1].unitCount
  }

  function Concat(ls: seq<seq<int>>): seq<int> {
    if ls == [] then [] else Concat(ls[..|ls| - 1]) + ls[|ls| - 1]
  }

  /** The files whose extraction gave units, each with its lengths, in order. */
  function Kept(files: seq<string>, lengths: seq<seq<int>>): seq<(string, seq<int>)>
    requires |files| == |lengths|
  {
    if files == [] then []
    else
      var rest := Kept(files[..|files| - 1], lengths[..|lengths| - 1]);
      if lengths[|lengths| - 1] == [] then rest else rest + [(files[|files| - 1], lengths[|lengths| - 1])]
  }

  /** `file_unit_info` after the given files: one entry per file that gave
      units, starting where the units of the files before it end. */
  function Infos(files: seq<string>, lengths: seq<seq<int>>): seq<FileUnitInfo>
    requires |files| == |lengths|
  {
    if files == [] then []
    else
      var n := |files| - 1;
      var rest := Infos(files[..n], lengths[..n]);
      if lengths[n] == [] then rest
      else rest + [FileUnitInfo(files[n], |Concat(lengths[..n])|, |lengths[n]|, lengths[n])]
  }

  /** The multi-file loop: `lengths[i]` is what `_extract_unit_page_lengths`
      gave for `files[i]`. */
  method CombineFiles(files: seq<string>, lengths: seq<seq<int>>)
    returns (combined: seq<int>, infos: seq<FileUnitInfo>)
    requires |files| == |lengths|
    ensures combined == Concat(lengths) && infos == Infos(files, lengths)
  {
    combined := [];
    infos := [];
    var startUnitIndex := 0;
    var i := 0;
    while i < |files|
      invariant 0 <= i <= |files|
      invariant combined == Concat(lengths[..i]) && startUnitIndex == |combined|
      invariant infos == Infos(files[..i], lengths[..i])
    {
      var unitPageLengths := lengths[i];
      assert files[..i + 1][..i] == files[..i] && lengths[..i + 1][..i] == lengths[..i];
      if unitPageLengths != [] {
        infos := infos + [FileUnitInfo(files[i], startUnitIndex, |unitPageLengths|, unitPageLengths)];
        combined := combined + unitPageLengths;
        startUnitIndex := startUnitIndex + |unitPageLengths|;
      }
      i := i + 1;
    }
    assert files[..i] == files && lengths[..i] == lengths;
  }

  /** The entries are the files that gave units, in order, with the number
      of units each gave. */
  lemma {:induction false} InfosKept(files: seq<string>, lengths: seq<seq<int>>)
    requires |files| == |lengths|
    ensures var infos := Infos(files, lengths);
            |infos| == |Kept(files, lengths)|
            && forall j | 0 <= j < |infos| ::
                 (infos[j].pdfPath, infos[j].unitPageLengths) == Kept(files, lengths)[j]
                 && 0 < infos[j].unitCount == |infos[j].unitPageLengths|
  {
    if files != [] {
      var n := |files| - 1;
      InfosKept(files[..n], lengths[..n]);
    }
  }

  /** Together the entries account for every unit of the combined list. */
  lemma {:induction false} InfosTotal(files: seq<string>, lengths: seq<seq<int>>)
    requires |files| == |lengths|
    ensures |Concat(lengths)| == CountSum(Infos(files, lengths))
  {
    if files != [] {
      var n := |files| - 1;
      InfosTotal(files[..n], lengths[..n]);
      var rest := Infos(files[..n], lengths[..n]);
      if lengths[n] != [] {
        assert Infos(files, lengths)[..|rest|] == rest;
      }
    }
  }

  /** Each entry starts where the units of the entries before it end. */
  lemma {:induction false} InfosStart(files: seq<string>, lengths: seq<seq<int>>, j: nat)
    requires |files| == |lengths| && j < |Infos(files, lengths)|
    ensures Infos(files, lengths)[j].startUnitIndex == CountSum(Infos(files, lengths)[..j])
  {
    var n := |files| - 1;
    var rest := Infos(files[..n], lengths[..n]);
    var infos := Infos(files, lengths);
    if lengths[n] == [] {
      InfosStart(files[..n], lengths[..n], j);
    } else if j < |rest| {
      InfosStart(files[..n], lengths[..n], j);
      assert infos[..j] == rest[..j];
    } else {
      InfosTotal(files[..n], lengths[..n]);
      assert infos[..j] == rest;
    }
  }

  /** Each entry's lengths sit in the combined list at its start index. */
  lemma {:induction false} InfosSlice(files: seq<string>, lengths: seq<seq<int>>, j: nat)
    requires |files| == |lengths| && j < |Infos(files, lengths)|
    ensures var e := Infos(files, lengths)[j];
            e.startUnitIndex + e.unitCount <= |Concat(lengths)|
            && Concat(lengths)[e.startUnitIndex..e.startUnitIndex + e.unitCount] == e.unitPageLengths
  {
    var n := |files| - 1;
    var rest := Infos(files[..n], lengths[..n]);
    var before := Concat(lengths[..n]);
    assert Concat(lengths) == before + lengths[n];
    if j < |rest| {
      InfosSlice(files[..n], lengths[..n], j);
      var e := rest[j];
      assert Concat(lengths)[e.startUnitIndex..e.startUnitIndex + e.unitCount]
          == before[e.startUnitIndex..e.startUnitIndex + e.unitCount];
    } else {
      assert Concat(lengths)[|before|..] == lengths[n];
    }
  }

  // ---------------------------------------------------------------------
  // De-duplicating per-unit test files

  /** The first index holding `u`, if any. */
  function FirstIndex(units: seq<nat>, u: nat): (r: Option<nat>)
    ensures r.Some? ==> r.value < |units| && units[r.value] == u
                        && forall i | 0 <= i < r.value :: units[i] != u
    ensures r.None? ==> forall i | 0 <= i < |units| :: units[i] != u
  {
    if units == [] then None
    else match FirstIndex(units[..|units| - 1], u)
      case Some(i) => Some(i)
      case None => if units[|units| - 1] == u then Some(|units| - 1) else None
  }

  /** How `FirstIndex` changes when the prefix grows by `units[i]`. */
  function FirstIndexStep(units: seq<nat>, i: nat, u: nat): Option<nat>
    requires i < |units|
  {
    if FirstIndex(units[..i], u).Some? then FirstIndex(units[..i], u)
    else if units[i] == u then Some(i) else None
  }

  lemma FirstIndexSnoc(units: seq<nat>, i: nat, u: nat)
    requires i < |units|
    ensures FirstIndex(units[..i + 1], u) == FirstIndexStep(units, i, u)
  {
    assert units[..i + 1][..i] == units[..i];
  }

  /** For each unit number from 1 to `k - 1` that occurs, ascending, the
      first index where it occurs. */
  function FirstIndices(units: seq<nat>, k: nat): (idx: seq<nat>)
    ensures forall j | 0 <= j < |idx| ::
              idx[j] < |units| && 0 < units[idx[j]] < k && FirstIndex(units, units[idx[j]]) == Some(idx[j])
    ensures forall j, j' | 0 <= j < j' < |idx| :: units[idx[j]] < units[idx[j']]
  {
    if k <= 1 then []
    else
      var rest := FirstIndices(units, k - 1);
      match FirstIndex(units, k - 1)
      case Some(i) => rest + [i]
      case None => rest
  }

  /** Every positive unit number below `k` that occurs is represented, by
      its first occurrence. */
  lemma {:induction false} FirstIndicesComplete(units: seq<nat>, k: nat, i: nat)
    requires i < |units| && 0 < units[i] < k
    ensures FirstIndex(units, units[i]).Some? && FirstIndex(units, units[i]).value in FirstIndices(units, k)
    decreases k
  {
    if units[i] < k - 1 {
      FirstIndicesComplete(units, k - 1, i);
    }
  }

  /** The unit number of each file. */
  function UnitNumbers(files: seq<string>): (units: seq<nat>)
    ensures |units| == |files| && forall i | 0 <= i < |files| :: units[i] < 100
  {
    seq(|files|, i requires 0 <= i < |files| => ExtractUnitNumber(files[i]))
  }

  /** The dictionary `unique_unit_files` after the first `n` files: each
      unit number above 0 seen so far, mapped to the first file with it. */
  function FirstFiles(files: seq<string>, units: seq<nat>, n: nat): map<nat, string>
    requires |units| == |files| && n <= |files|
  {
    if n == 0 then map[]
    else
      var m := FirstFiles(files, units, n - 1);
      if units[n - 1] > 0 && units[n - 1] !in m then m[units[n - 1] := files[n - 1]] else m
  }

  /** The dictionary holds exactly the first occurrences. */
  lemma {:induction false} FirstFilesAreFirst(files: seq<string>, units: seq<nat>, n: nat, u: nat)
    requires |units| == |files| && n <= |files|
    ensures u in FirstFiles(files, units, n) <==> 0 < u && FirstIndex(units[..n], u).Some?
    ensures u in FirstFiles(files, units, n) ==> FirstFiles(files, units, n)[u] == files[FirstIndex(units[..n], u).value]
  {
    if n > 0 {
      FirstFilesAreFirst(files, units, n - 1, u);
      FirstIndexSnoc(units, n - 1, u);
    }
  }

  /** When only per-unit test files exist: for each unit number above 0,
      in ascending order, the first file that has it. */
  method DedupUnitTests(files: seq<string>) returns (selected: seq<string>)
    ensures var idx := FirstIndices(UnitNumbers(files), 100);
            |selected| == |idx| && forall j | 0 <= j < |idx| :: selected[j] == files[idx[j]]
  {
    selected := FirstPerUnit(files, UnitNumbers(files));
  }

  /** The two loops of the deduplication, over the files' unit numbers. */
  method FirstPerUnit(files: seq<string>, units: seq<nat>) returns (selected: seq<string>)
    requires |units| == |files|
    ensures var idx := FirstIndices(units, 100);
            |selected| == |idx| && forall j | 0 <= j < |idx| :: selected[j] == files[idx[j]]
  {
    var uniqueUnitFiles: map<nat, string> := map[];
    var i := 0;
    while i < |files|
      invariant 0 <= i <= |files|
      invariant uniqueUnitFiles == FirstFiles(files, units, i)
    {
      var unitNum := units[i];
      if unitNum > 0 && unitNum !in uniqueUnitFiles {
        uniqueUnitFiles := uniqueUnitFiles[unitNum := files[i]];
      }
      i := i + 1;
    }
    assert units[..i] == units;
    selected := [];
    var k := 1;
    while k < 100
      invariant 1 <= k <= 100
      invariant var idx := FirstIndices(units, k);
                |selected| == |idx| && forall j | 0 <= j < |idx| :: selected[j] == files[idx[j]]
    {
      FirstFilesAreFirst(files, units, |files|, k);
      if k in uniqueUnitFiles {
        selected := selected + [uniqueUnitFiles[k]];
      }
      k := k + 1;
    }
  }
}
