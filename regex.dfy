/** The fragment of Python's `re` that the pattern tables of the system use:
    literal characters and bracket classes (optionally with `\s` and `\d`),
    each repeated between `lo` and `hi` times, greedily and with
    backtracking; `\b`; capturing groups around a single repeated class.
    Every pattern is matched ignoring ASCII case, as all of the system's
    searches pass `re.IGNORECASE` or search lower-cased text. */
module Regex {
  import opened Strings

  /** A character class: any of `chars` (compared after case folding),
      any whitespace when `space`, any ASCII digit when `digit`. */
  datatype Class = Class(chars: string, space: bool, digit: bool)

  datatype Tok =
    | Rep(k: Class, lo: nat, hi: Option<nat>, capture: bool)
    | WordBoundary

  type Pattern = seq<Tok>

  /** A successful match starting at a known index: where it ends and the
      text of each capturing group, in order. */
  datatype Hit = Hit(end: nat, groups: seq<string>)

  /** A match found by a search. */
  datatype Match = Match(start: nat, end: nat, groups: seq<string>)

  predicate InClass(k: Class, c: char) {
    (k.space && IsSpace(c)) || (k.digit && IsDigit(c)) || Lower(c) in LowerStr(k.chars)
  }

  /** `\w`: ASCII letters and digits, `_`, and the Hangul blocks. */
  predicate IsWordChar(c: char) {
    var n := c as int;
    ('a' <= c <= 'z') || ('A' <= c <= 'Z') || IsDigit(c) || c == '_'
    || (0xAC00 <= n <= 0xD7A3) || (0x1100 <= n <= 0x11FF) || (0x3130 <= n <= 0x318F)
  }

  predicate WordAt(s: string, j: int) {
    0 <= j < |s| && IsWordChar(s[j])
  }

  /** `\b` at index `i`: a word character on exactly one side. */
  predicate AtBoundary(s: string, i: nat) {
    WordAt(s, i - 1) != WordAt(s, i)
  }

  /** The fewest characters a match of `p` can consume. */
  function MinLen(p: Pattern): nat {
    if p == [] then 0 else (if p[0].Rep? then p[0].lo else 0) + MinLen(p[1..])
  }

  /** The capturing tokens of `p`, in order: group `j + 1` belongs to `Captures(p)[j]`. */
  function Captures(p: Pattern): seq<Tok> {
    if p == [] then []
    else (if p[0].Rep? && p[0].capture then [p[0]] else []) + Captures(p[1..])
  }

  lemma CapturesAppend(p: Pattern, q: Pattern)
    ensures Captures(p + q) == Captures(p) + Captures(q)
    ensures MinLen(p + q) == MinLen(p) + MinLen(q)
  {
    CapturesOfAppend(p, q);
    MinLenOfAppend(p, q);
  }

  lemma {:induction false} CapturesOfAppend(p: Pattern, q: Pattern)
    ensures Captures(p + q) == Captures(p) + Captures(q)
    decreases |p|
  {
    if p == [] {
      assert p + q == q;
    } else {
      assert (p + q)[0] == p[0] && (p + q)[1..] == p[1..] + q;
      CapturesOfAppend(p[1..], q);
    }
  }

  lemma {:induction false} MinLenOfAppend(p: Pattern, q: Pattern)
    ensures MinLen(p + q) == MinLen(p) + MinLen(q)
    decreases |p|
  {
    if p == [] {
      assert p + q == q;
    } else {
      assert (p + q)[0] == p[0] && (p + q)[1..] == p[1..] + q;
      MinLenOfAppend(p[1..], q);
    }
  }

  /** `g` is text a token could have consumed. */
  predicate Fits(t: Tok, g: string) {
    t.Rep? && t.lo <= |g| && (t.hi.Some? ==> |g| <= t.hi.value)
    && forall c | c in g :: InClass(t.k, c)
  }

  predicate GroupsFit(p: Pattern, gs: seq<string>) {
    var cs := Captures(p);
    |gs| == |cs| && forall j | 0 <= j < |gs| :: Fits(cs[j], gs[j])
  }

  /** The length of the run of characters of class `k` starting at `i`,
      capped at `cap`: how far a greedy repetition reaches. */
  function Run(k: Class, s: string, i: nat, cap: Option<nat>): (n: nat)
    requires i <= |s|
    ensures i + n <= |s|
    ensures forall j | i <= j < i + n :: InClass(k, s[j])
    ensures cap.Some? ==> n <= cap.value
    ensures i + n == |s| || (cap.Some? && n == cap.value) || !InClass(k, s[i + n])
    decreases |s| - i
  {
    if i == |s| || (cap.Some? && cap.value == 0) || !InClass(k, s[i]) then 0
    else 1 + Run(k, s, i + 1, if cap.Some? then Some(cap.value - 1) else None)
  }

  /** Python's `re.match(p, s[i:])` with `s` as context for `\b`: the first
      match in backtracking order, each repetition trying its longest
      choice first. */
  function MatchAt(p: Pattern, s: string, i: nat): (r: Option<Hit>)
    requires i <= |s|
    ensures r.Some? ==> i + MinLen(p) <= r.value.end <= |s|
    decreases |p|, 1, 0
  {
    if p == [] then Some(Hit(i, []))
    else match p[0]
      case WordBoundary =>
        if AtBoundary(s, i) then MatchAt(p[1..], s, i) else None
      case Rep(k, lo, hi, cap) =>
        TryRep(p, s, i, Run(k, s, i, hi))
  }

  /** Tries the repetition `p[0]` with `n`, `n - 1`, ..., `lo` characters. */
  function TryRep(p: Pattern, s: string, i: nat, n: nat): (r: Option<Hit>)
    requires p != [] && p[0].Rep? && i + n <= |s|
    requires forall j | i <= j < i + n :: InClass(p[0].k, s[j])
    requires p[0].hi.Some? ==> n <= p[0].hi.value
    ensures r.Some? ==> i + MinLen(p) <= r.value.end <= |s|
    decreases |p|, 0, n
  {
    if n < p[0].lo then None
    else match MatchAt(p[1..], s, i + n)
      case Some(h) =>
        Some(Hit(h.end, if p[0].capture then [s[i..i + n]] + h.groups else h.groups))
      case None =>
        if n == 0 then None else TryRep(p, s, i, n - 1)
  }

  /** Every group of a match is text its capturing token could consume. */
  lemma {:induction false} MatchFits(p: Pattern, s: string, i: nat)
    requires i <= |s|
    ensures MatchAt(p, s, i).Some? ==> GroupsFit(p, MatchAt(p, s, i).value.groups)
    decreases |p|, 1, 0
  {
    if p != [] {
      match p[0]
      case WordBoundary =>
        MatchFits(p[1..], s, i);
        assert Captures(p) == Captures(p[1..]);
      case Rep(k, lo, hi, cap) =>
        TryRepFits(p, s, i, Run(k, s, i, hi));
    }
  }

  lemma {:induction false} TryRepFits(p: Pattern, s: string, i: nat, n: nat)
    requires p != [] && p[0].Rep? && i + n <= |s|
    requires forall j | i <= j < i + n :: InClass(p[0].k, s[j])
    requires p[0].hi.Some? ==> n <= p[0].hi.value
    ensures TryRep(p, s, i, n).Some? ==> GroupsFit(p, TryRep(p, s, i, n).value.groups)
    decreases |p|, 0, n
  {
    if n >= p[0].lo {
      match MatchAt(p[1..], s, i + n)
      case Some(h) =>
        MatchFits(p[1..], s, i + n);
        RepHit(p, s, i, n, h);
      case None =>
        if n > 0 {
          TryRepFits(p, s, i, n - 1);
        }
    }
  }

  /** The groups a repetition of `n` characters makes with a hit of the
      rest fit the whole pattern. */
  lemma RepHit(p: Pattern, s: string, i: nat, n: nat, h: Hit)
    requires p != [] && p[0].Rep? && i + n <= |s| && p[0].lo <= n
    requires forall j | i <= j < i + n :: InClass(p[0].k, s[j])
    requires p[0].hi.Some? ==> n <= p[0].hi.value
    requires GroupsFit(p[1..], h.groups)
    ensures GroupsFit(p, if p[0].capture then [s[i..i + n]] + h.groups else h.groups)
  {
    if p[0].capture {
      var g := s[i..i + n];
      assert Fits(p[0], g) by {
        forall c | c in g ensures InClass(p[0].k, c) {
          var j :| 0 <= j < n && g[j] == c;
          assert s[i + j] == c;
        }
      }
      var gs := [g] + h.groups;
      assert Captures(p) == [p[0]] + Captures(p[1..]);
      forall j | 0 <= j < |gs| ensures Fits(Captures(p)[j], gs[j]) {
        if j > 0 {
          assert gs[j] == h.groups[j - 1] && Captures(p)[j] == Captures(p[1..])[j - 1];
        }
      }
    }
  }

  /** Python's `re.search(p, s[i:])` in context: the match at the leftmost
      index from `i` on where `p` matches. */
  function SearchFrom(p: Pattern, s: string, i: nat): (r: Option<Match>)
    requires i <= |s|
    ensures r.Some? ==> i <= r.value.start && r.value.start + MinLen(p) <= r.value.end <= |s|
    ensures r.Some? ==> MatchAt(p, s, r.value.start) == Some(Hit(r.value.end, r.value.groups))
    ensures forall j | i <= j <= |s| && (r.None? || j < r.value.start) :: MatchAt(p, s, j).None?
    decreases |s| - i
  {
    match MatchAt(p, s, i)
    case Some(h) => Some(Match(i, h.end, h.groups))
    case None => if i == |s| then None else SearchFrom(p, s, i + 1)
  }

  function Search(p: Pattern, s: string): (r: Option<Match>)
    ensures r.Some? ==> GroupsFit(p, r.value.groups) && r.value.end <= |s|
    ensures r.None? <==> forall j | 0 <= j <= |s| :: MatchAt(p, s, j).None?
  {
    var r := SearchFrom(p, s, 0);
    assert r.Some? ==> MatchAt(p, s, r.value.start).Some?;
    if r.Some? then MatchFits(p, s, r.value.start); r else r
  }

  /** `re.search(p, s)` is truthy. */
  predicate Found(p: Pattern, s: string) {
    Search(p, s).Some?
  }

  /** Python's `re.findall` for a pattern without groups: the text of every
      non-overlapping match, left to right. */
  function FindAllFrom(p: Pattern, s: string, i: nat): (r: seq<string>)
    requires i <= |s| && MinLen(p) > 0
    ensures r == [] <==> SearchFrom(p, s, i).None?
    ensures forall j | 0 <= j < |r| :: MinLen(p) <= |r[j]|
    decreases |s| - i
  {
    match SearchFrom(p, s, i)
    case None => []
    case Some(m) => [s[m.start..m.end]] + FindAllFrom(p, s, m.end)
  }

  /** Python's `re.sub(p, rep, s[i:])` for a pattern that cannot match the
      empty string: every non-overlapping match, found left to right, is
      replaced by `rep`. */
  function SubFrom(p: Pattern, s: string, rep: string, i: nat): string
    requires i <= |s| && MinLen(p) > 0
    decreases |s| - i
  {
    match SearchFrom(p, s, i)
    case None => s[i..]
    case Some(m) => s[i..m.start] + rep + SubFrom(p, s, rep, m.end)
  }

  function Sub(p: Pattern, s: string, rep: string): string
    requires MinLen(p) > 0
  {
    SubFrom(p, s, rep, 0)
  }

  /** Some pattern of the list is found in `s`. */
  predicate AnyFound(ps: seq<Pattern>, s: string) {
    exists i | 0 <= i < |ps| :: Found(ps[i], s)
  }

  /** The loop `for pattern in ps: if re.search(pattern, s): found = True; break`. */
  method SearchAny(ps: seq<Pattern>, s: string) returns (found: bool)
    ensures found <==> AnyFound(ps, s)
  {
    found := false;
    var i := 0;
    while i < |ps|
      invariant 0 <= i <= |ps|
      invariant forall j | 0 <= j < i :: !Found(ps[j], s)
    {
      if Search(ps[i], s).Some? {
        found := true;
        break;
      }
      i := i + 1;
    }
  }

  /** Tries the patterns in order: the index of the first one found in `s`,
      with its match. */
  function FirstSearch(ps: seq<Pattern>, s: string): (r: Option<(nat, Match)>)
    ensures r.None? <==> !AnyFound(ps, s)
    ensures r.Some? ==> r.value.0 < |ps| && Search(ps[r.value.0], s) == Some(r.value.1)
    ensures r.Some? ==> forall j | 0 <= j < r.value.0 :: !Found(ps[j], s)
    decreases |ps|
  {
    if |ps| == 0 then None
    else match Search(ps[0], s)
      case Some(m) => Some((0, m))
      case None =>
        match FirstSearch(ps[1..], s)
        case None => None
        case Some((i, m)) => Some((i + 1, m))
  }

  // Building blocks of the system's patterns.

  /** A literal character. */
  function Lit(c: char): Tok {
    Rep(Class([c], false, false), 1, Some(1), false)
  }

  /** A literal word. */
  function Word(w: string): (p: Pattern)
    ensures |p| == |w| && forall i | 0 <= i < |w| :: p[i] == Lit(w[i])
    ensures MinLen(p) == |w| && Captures(p) == []
  {
    var p := seq(|w|, i requires 0 <= i < |w| => Lit(w[i]));
    LiteralsOnly(p);
    p
  }

  /** A pattern of single literal characters consumes exactly its length
      and captures nothing. */
  lemma {:induction false} LiteralsOnly(p: Pattern)
    requires forall i | 0 <= i < |p| :: p[i].Rep? && p[i].lo == 1 && !p[i].capture
    ensures MinLen(p) == |p| && Captures(p) == []
    decreases |p|
  {
    if p != [] {
      assert forall i | 0 <= i < |p[1..]| :: p[1..][i] == p[i + 1];
      LiteralsOnly(p[1..]);
    }
  }

  /** No token of `p` is a capturing group. */
  predicate Plain(p: Pattern) {
    forall i | 0 <= i < |p| :: !(p[i].Rep? && p[i].capture)
  }

  lemma {:induction false} PlainCaptures(p: Pattern)
    requires Plain(p)
    ensures Captures(p) == []
    decreases |p|
  {
    if p != [] {
      assert forall i | 0 <= i < |p[1..]| :: p[1..][i] == p[i + 1];
      PlainCaptures(p[1..]);
    }
  }

  /** A pattern with a single capturing token has that one group. */
  lemma OneCapture(a: Pattern, t: Tok, b: Pattern)
    requires Plain(a) && Plain(b) && t.Rep? && t.capture
    ensures Captures(a + [t] + b) == [t]
  {
    PlainCaptures(a);
    PlainCaptures(b);
    CapturesAppend(a + [t], b);
    CapturesAppend(a, [t]);
    assert [t][1..] == [];
  }

  /** `a\s*b`: two words with any whitespace between them. */
  function Phrase(a: string, b: string): Pattern {
    Word(a) + [Spaces] + Word(b)
  }

  /** `\s*` */
  const Spaces: Tok := Rep(Class([], true, false), 0, None, false)

  /** `\s+` */
  const Spaces1: Tok := Rep(Class([], true, false), 1, None, false)

  /** `[cs]?` */
  function Opt(cs: string): Tok {
    Rep(Class(cs, false, false), 0, Some(1), false)
  }

  /** `[cs]`, with `\s` inside the brackets when `space`. */
  function OneOf(cs: string, space: bool): Tok {
    Rep(Class(cs, space, false), 1, Some(1), false)
  }

  /** `\d{1,2}`, captured when `capture`. */
  function Digits12(capture: bool): Tok {
    Rep(Class([], false, true), 1, Some(2), capture)
  }

  /** `(\d+)` */
  const Digits: Tok := Rep(Class([], false, true), 1, None, true)

  /** A token of a digit class consumes only digits. */
  lemma DigitGroup(t: Tok, g: string)
    requires Fits(t, g) && t.k == Class([], false, true)
    ensures AllDigits(g)
  {
    forall j | 0 <= j < |g| ensures IsDigit(g[j]) {
      assert g[j] in g;
    }
  }

  // Stepping a match through a pattern one token at a time.

  /** A run that stops exactly after `n` characters has length `n`. */
  lemma {:induction false} RunExact(k: Class, s: string, i: nat, cap: Option<nat>, n: nat)
    requires i + n <= |s|
    requires forall j | i <= j < i + n :: InClass(k, s[j])
    requires i + n == |s| || (cap.Some? && n == cap.value) || !InClass(k, s[i + n])
    requires cap.Some? ==> n <= cap.value
    ensures Run(k, s, i, cap) == n
    decreases n
  {
    if n > 0 {
      RunExact(k, s, i + 1, if cap.Some? then Some(cap.value - 1) else None, n - 1);
    }
  }

  /** A repetition whose greedy run lets the rest of the pattern match takes
      that whole run. */
  lemma RepStep(p: Pattern, s: string, i: nat, n: nat)
    requires p != [] && p[0].Rep? && i <= |s|
    requires Run(p[0].k, s, i, p[0].hi) == n && p[0].lo <= n
    requires MatchAt(p[1..], s, i + n).Some?
    ensures var h := MatchAt(p[1..], s, i + n).value;
            MatchAt(p, s, i) == Some(Hit(h.end, (if p[0].capture then [s[i..i + n]] else []) + h.groups))
  {
    var h := MatchAt(p[1..], s, i + n).value;
    assert MatchAt(p, s, i) == TryRep(p, s, i, n);
    assert TryRep(p, s, i, n) == Some(Hit(h.end, if p[0].capture then [s[i..i + n]] + h.groups else h.groups));
    assert [] + h.groups == h.groups;
  }

  /** An uncaptured repetition whose greedy run lets the rest match is
      passed over: the match is that of the rest. */
  lemma SkipStep(p: Pattern, s: string, i: nat, n: nat)
    requires p != [] && p[0].Rep? && !p[0].capture && i <= |s|
    requires Run(p[0].k, s, i, p[0].hi) == n && p[0].lo <= n
    requires MatchAt(p[1..], s, i + n).Some?
    ensures MatchAt(p, s, i) == MatchAt(p[1..], s, i + n)
  {
    RepStep(p, s, i, n);
    assert [] + MatchAt(p[1..], s, i + n).value.groups == MatchAt(p[1..], s, i + n).value.groups;
  }

  /** A literal that meets its character (up to case) moves the match on by one. */
  lemma LitStep(p: Pattern, s: string, i: nat, c: char)
    requires p != [] && p[0] == Lit(c) && i < |s| && Lower(s[i]) == Lower(c)
    requires MatchAt(p[1..], s, i + 1).Some?
    ensures MatchAt(p, s, i) == MatchAt(p[1..], s, i + 1)
  {
    assert LowerStr([c]) == [Lower(c)];
    RunExact(p[0].k, s, i, p[0].hi, 1);
    RepStep(p, s, i, 1);
  }

  /** A pattern that starts with a literal cannot match where that literal
      is not. */
  lemma LitMiss(p: Pattern, s: string, i: nat, c: char)
    requires p != [] && p[0] == Lit(c) && i <= |s|
    requires i == |s| || Lower(s[i]) != Lower(c)
    ensures MatchAt(p, s, i).None?
  {
    assert LowerStr([c]) == [Lower(c)];
    RunExact(p[0].k, s, i, p[0].hi, 0);
  }

  /** A search from `i` finds the match at `q` when no index before `q`
      holds the pattern's leading literal. */
  lemma FoundAt(p: Pattern, s: string, i: nat, q: nat, c: char, h: Hit)
    requires p != [] && p[0] == Lit(c) && i <= q <= |s|
    requires forall j | i <= j < q :: Lower(s[j]) != Lower(c)
    requires MatchAt(p, s, q) == Some(h)
    ensures SearchFrom(p, s, i) == Some(Match(q, h.end, h.groups))
  {
    forall j | i <= j < q ensures MatchAt(p, s, j).None? {
      LitMiss(p, s, j, c);
    }
  }

  /** A repetition over text `t` at `a`, all of its class and not followed
      by a further character of the class, takes exactly `t` when the rest
      of the pattern matches after it. */
  lemma RepOver(p: Pattern, s: string, a: nat, t: string)
    requires p != [] && p[0].Rep? && OccursAt(s, t, a)
    requires forall c | c in t :: InClass(p[0].k, c)
    requires p[0].lo <= |t| && (p[0].hi.Some? ==> |t| <= p[0].hi.value)
    requires a + |t| == |s| || (p[0].hi.Some? && |t| == p[0].hi.value) || !InClass(p[0].k, s[a + |t|])
    requires MatchAt(p[1..], s, a + |t|).Some?
    ensures var h := MatchAt(p[1..], s, a + |t|).value;
            MatchAt(p, s, a) == Some(Hit(h.end, (if p[0].capture then [t] else []) + h.groups))
  {
    forall j | a <= j < a + |t| ensures InClass(p[0].k, s[j]) {
      assert s[j] == s[a..a + |t|][j - a] && s[a..a + |t|][j - a] in t;
    }
    RunExact(p[0].k, s, a, p[0].hi, |t|);
    RepStep(p, s, a, |t|);
  }
}
