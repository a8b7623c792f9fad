/** Character and string helpers shared by the model: Python's whitespace
    test, ASCII case folding, stripping, replacing, splitting and decimal
    digits. */
module Strings {

  datatype Option<+T> = None | Some(value: T)

  /** Python's `str.isspace()`, which is also what `\s` matches in a `str` pattern. */
  predicate IsSpace(c: char) {
    var n := c as int;
    (9 <= n <= 13) || (28 <= n <= 32) || n == 0x85 || n == 0xA0 || n == 0x1680
    || (0x2000 <= n <= 0x200A) || n == 0x2028 || n == 0x2029 || n == 0x202F
    || n == 0x205F || n == 0x3000
  }

  predicate IsDigit(c: char) { '0' <= c <= '9' }

  predicate AllDigits(s: string) { forall k | 0 <= k < |s| :: IsDigit(s[k]) }

  /** ASCII case folding: `A`..`Z` become `a`..`z`, every other character is kept. */
  function Lower(c: char): char {
    if 'A' <= c <= 'Z' then (c as int + 32) as char else c
  }

  function Upper(c: char): char {
    if 'a' <= c <= 'z' then (c as int - 32) as char else c
  }

  function LowerStr(s: string): (r: string)
    ensures |r| == |s| && forall k | 0 <= k < |s| :: r[k] == Lower(s[k])
  {
    seq(|s|, k requires 0 <= k < |s| => Lower(s[k]))
  }

  /** Lower-casing twice is lower-casing once. */
  lemma LowerStrIdempotent(s: string)
    ensures LowerStr(LowerStr(s)) == LowerStr(s)
  {
    assert forall k | 0 <= k < |s| :: Lower(Lower(s[k])) == Lower(s[k]);
  }

  function UpperStr(s: string): (r: string)
    ensures |r| == |s| && forall k | 0 <= k < |s| :: r[k] == Upper(s[k])
  {
    seq(|s|, k requires 0 <= k < |s| => Upper(s[k]))
  }

  /** `t` occurs in `s` starting at index `i`. */
  predicate OccursAt(s: string, t: string, i: nat) {
    i + |t| <= |s| && s[i..i + |t|] == t
  }

  /** Python's `t in s` for strings. */
  predicate Contains(s: string, t: string) {
    exists i | 0 <= i <= |s| :: OccursAt(s, t, i)
  }

  lemma ContainsWitness(s: string, t: string, i: nat)
    requires OccursAt(s, t, i)
    ensures Contains(s, t)
  {
  }

  /** A longer needle that contains `t` can only occur where `t` occurs too. */
  lemma ContainsInner(s: string, big: string, t: string, off: nat)
    requires OccursAt(big, t, off)
    requires Contains(s, big)
    ensures Contains(s, t)
  {
    var i :| 0 <= i <= |s| && OccursAt(s, big, i);
    var w := s[i..i + |big|];
    assert w == big;
    forall k | 0 <= k < |t| ensures s[i + off + k] == t[k] {
      assert w[off + k] == s[i + off + k];
      assert big[off..off + |t|][k] == big[off + k];
    }
    assert s[i + off..i + off + |t|] == t;
    assert OccursAt(s, t, i + off);
  }

  /** Python's `str.lstrip()`: drops leading whitespace. */
  function LStrip(s: string): (r: string)
    ensures |r| <= |s| && r == s[|s| - |r|..]
    ensures r == [] || !IsSpace(r[0])
    ensures forall k | 0 <= k < |s| - |r| :: IsSpace(s[k])
  {
    if s != [] && IsSpace(s[0]) then LStrip(s[1..]) else s
  }

  /** Python's `str.rstrip()`: drops trailing whitespace. */
  function RStrip(s: string): (r: string)
    ensures |r| <= |s| && r == s[..|r|]
    ensures r == [] || !IsSpace(r[|r| - 1])
    ensures forall k | |r| <= k < |s| :: IsSpace(s[k])
  {
    if s != [] && IsSpace(s[|s| - 1]) then RStrip(s[..|s| - 1]) else s
  }

  /** Python's `str.strip()`. */
  function Strip(s: string): (r: string)
    ensures |r| <= |s|
    ensures r == [] || (!IsSpace(r[0]) && !IsSpace(r[|r| - 1]))
    ensures OccursAt(s, r, |s| - |LStrip(s)|)
  {
    StripOccurs(s);
    RStrip(LStrip(s))
  }

  lemma StripOccurs(s: string)
    ensures OccursAt(s, RStrip(LStrip(s)), |s| - |LStrip(s)|)
  {
    OccursInSuffix(s, LStrip(s), RStrip(LStrip(s)));
  }

  /** The stripped text is a slice of the text. */
  lemma StripSlice(s: string) returns (i: nat)
    ensures i + |Strip(s)| <= |s| && Strip(s) == s[i..i + |Strip(s)|]
  {
    i := |s| - |LStrip(s)|;
    assert OccursAt(s, Strip(s), i);
  }

  /** A prefix of a suffix of `s` occurs in `s` where the suffix starts. */
  lemma OccursInSuffix(s: string, l: string, r: string)
    requires |l| <= |s| && l == s[|s| - |l|..]
    requires |r| <= |l| && r == l[..|r|]
    ensures OccursAt(s, r, |s| - |l|)
  {
    var i := |s| - |l|;
    assert s[i..i + |r|] == s[i..][..|r|];
  }

  /** `Strip(s)` is empty exactly when every character of `s` is whitespace. */
  lemma StripEmpty(s: string)
    ensures Strip(s) == [] <==> forall k | 0 <= k < |s| :: IsSpace(s[k])
  {
    var l := LStrip(s);
    if Strip(s) == [] {
      assert l == [];
    } else if l != [] {
      assert !IsSpace(l[0]);
      assert l[0] == s[|s| - |l|];
    }
  }

  /** Python's `s.lstrip(chars)` for an explicit set of characters. */
  function LStripChars(s: string, cs: set<char>): (r: string)
    ensures |r| <= |s| && r == s[|s| - |r|..]
    ensures r == [] || r[0] !in cs
  {
    if s != [] && s[0] in cs then LStripChars(s[1..], cs) else s
  }

  /** Nothing is stripped from text that does not start with one of `cs`. */
  lemma LStripCharsNone(s: string, cs: set<char>)
    requires s == [] || s[0] !in cs
    ensures LStripChars(s, cs) == s
  {
  }

  /** Python's `s.replace(pat, rep)`: every non-overlapping occurrence of
      `pat`, found left to right, is replaced by `rep`. */
  function Replace(s: string, pat: string, rep: string): (r: string)
    requires pat != []
    decreases |s|
  {
    if s == [] then []
    else if OccursAt(s, pat, 0) then rep + Replace(s[|pat|..], pat, rep)
    else [s[0]] + Replace(s[1..], pat, rep)
  }

  /** Replacing a single character keeps the length and changes nothing else. */
  function ReplaceChar(s: string, a: char, b: char): (r: string)
    ensures |r| == |s|
    ensures forall k | 0 <= k < |s| :: r[k] == if s[k] == a then b else s[k]
  {
    seq(|s|, k requires 0 <= k < |s| => if s[k] == a then b else s[k])
  }

  lemma ReplaceSingleIsReplaceChar(s: string, a: char, b: char)
    ensures Replace(s, [a], [b]) == ReplaceChar(s, a, b)
  {
    if s != [] {
      ReplaceSingleIsReplaceChar(s[1..], a, b);
      assert OccursAt(s, [a], 0) <==> s[0] == a;
    }
  }

  /** Python's `s.split(d)` for a one-character separator. */
  function Split(s: string, d: char): (r: seq<string>)
    ensures |r| >= 1
    ensures forall k | 0 <= k < |r| :: d !in r[k]
    decreases |s|
  {
    if s == [] then [[]]
    else if s[0] == d then [[]] + Split(s[1..], d)
    else
      var rest := Split(s[1..], d);
      [[s[0]] + rest[0]] + rest[1..]
  }

  /** Python's `d.join(parts)`. */
  function JoinWith(parts: seq<string>, d: char): string
    requires |parts| >= 1
    decreases |parts|
  {
    if |parts| == 1 then parts[0] else parts[0] + [d] + JoinWith(parts[1..], d)
  }

  /** Splitting and joining again gives back the original text. */
  lemma {:induction false} SplitJoin(s: string, d: char)
    ensures JoinWith(Split(s, d), d) == s
    decreases |s|
  {
    if s == [] {
    } else if s[0] == d {
      SplitJoin(s[1..], d);
      assert Split(s, d) == [[]] + Split(s[1..], d);
      assert Split(s, d)[1..] == Split(s[1..], d);
    } else {
      SplitJoin(s[1..], d);
      var rest := Split(s[1..], d);
      var r := Split(s, d);
      assert r == [[s[0]] + rest[0]] + rest[1..];
      if |rest| == 1 {
        assert JoinWith(r, d) == [s[0]] + rest[0];
      } else {
        assert r[1..] == rest[1..];
        assert JoinWith(rest, d) == rest[0] + [d] + JoinWith(rest[1..], d);
        assert JoinWith(r, d) == [s[0]] + rest[0] + [d] + JoinWith(rest[1..], d);
      }
    }
  }

  function DigitValue(c: char): nat
    requires IsDigit(c)
  {
    c as int - '0' as int
  }

  function DigitChar(n: nat): (c: char)
    requires n < 10
    ensures IsDigit(c) && DigitValue(c) == n
  {
    ('0' as int + n) as char
  }

  /** The value of a string of decimal digits (Python's `int` on such a string). */
  function DecimalValue(ds: string): nat
    requires AllDigits(ds)
    decreases |ds|
  {
    if ds == [] then 0 else 10 * DecimalValue(ds[..|ds| - 1]) + DigitValue(ds[|ds| - 1])
  }

  function Pow10(n: nat): (r: nat)
    ensures r >= 1
  {
    if n == 0 then 1 else 10 * Pow10(n - 1)
  }

  /** A string of `n` digits denotes a number below `10^n`. */
  lemma {:induction false} DecimalValueBound(ds: string)
    requires AllDigits(ds)
    ensures DecimalValue(ds) < Pow10(|ds|)
    decreases |ds|
  {
    if ds != [] {
      DecimalValueBound(ds[..|ds| - 1]);
    }
  }

  /** One or two digits denote a number in 0..99. */
  lemma TwoDigitsBelow100(ds: string)
    requires AllDigits(ds) && |ds| <= 2
    ensures DecimalValue(ds) < 100
  {
    DecimalValueBound(ds);
    assert Pow10(|ds|) <= 100 by {
      if |ds| == 2 { assert Pow10(2) == 100; }
    }
  }

  /** Python's `str(n)` for a natural number. */
  function Decimal(n: nat): (r: string)
    ensures r != [] && AllDigits(r)
    decreases n
  {
    if n < 10 then [DigitChar(n)] else Decimal(n / 10) + [DigitChar(n % 10)]
  }

  /** Printing a number in decimal and reading it back gives the number. */
  lemma {:induction false} DecimalRoundTrip(n: nat)
    ensures DecimalValue(Decimal(n)) == n
    decreases n
  {
    if n >= 10 {
      DecimalRoundTrip(n / 10);
      var r := Decimal(n);
      assert r[..|r| - 1] == Decimal(n / 10);
    }
  }

  /** Python's `f"{n:02d}"`: at least two digits, padded with a zero. */
  function ZeroPad2(n: nat): (r: string)
    ensures AllDigits(r) && |r| >= 2
  {
    if n < 10 then "0" + Decimal(n) else Decimal(n)
  }

  /** The padded form reads back as the number, so distinct numbers have
      distinct padded forms. */
  lemma ZeroPad2Value(n: nat)
    ensures DecimalValue(ZeroPad2(n)) == n
  {
    DecimalRoundTrip(n);
    if n < 10 {
      LeadingZero(Decimal(n));
    } else {
      assert |Decimal(n)| >= 2 by {
        assert Decimal(n) == Decimal(n / 10) + [DigitChar(n % 10)];
      }
    }
  }

  /** A leading zero does not change the value of a digit string. */
  lemma {:induction false} LeadingZero(ds: string)
    requires AllDigits(ds)
    ensures AllDigits("0" + ds) && DecimalValue("0" + ds) == DecimalValue(ds)
    decreases |ds|
  {
    if ds != [] {
      LeadingZero(ds[..|ds| - 1]);
      assert ("0" + ds)[..|ds|] == "0" + ds[..|ds| - 1];
    }
  }

  /** Python's `int(s)` on a string: surrounding whitespace, an optional sign
      and at least one decimal digit; anything else raises `ValueError`,
      modelled as `None`. */
  function ParseInt(s: string): (r: Option<int>)
    ensures r.Some? ==> Strip(s) != []
  {
    var t := Strip(s);
    if t == [] then None
    else if (t[0] == '+' || t[0] == '-') && |t| > 1 && AllDigits(t[1..]) then
      var v: int := DecimalValue(t[1..]);
      Some(if t[0] == '-' then -v else v)
    else if AllDigits(t) then Some(DecimalValue(t))
    else None
  }

  /** Reading back the decimal form of a number, with any surrounding
      whitespace, gives the number. */
  lemma ParseIntDecimal(n: nat)
    ensures ParseInt(Decimal(n)) == Some(n)
  {
    DecimalRoundTrip(n);
    ParseIntDigits(Decimal(n));
  }

  /** Digits read back as their decimal value. */
  lemma ParseIntDigits(d: string)
    requires d != [] && AllDigits(d)
    ensures ParseInt(d) == Some(DecimalValue(d))
  {
    assert IsDigit(d[0]) && IsDigit(d[|d| - 1]);
    StripUnchanged(d);
    assert d[0] != '+' && d[0] != '-';
  }

  /** Text that neither starts nor ends with whitespace is its own strip. */
  lemma StripUnchanged(s: string)
    requires s != [] && !IsSpace(s[0]) && !IsSpace(s[|s| - 1])
    ensures Strip(s) == s
  {
    assert LStrip(s) == s;
    assert RStrip(s) == s;
  }

  /** Text without the separator splits into itself alone. */
  lemma {:induction false} SplitNoDelim(s: string, d: char)
    requires d !in s
    ensures Split(s, d) == [s]
    decreases |s|
  {
    if s != [] {
      assert d !in s[1..] by { assert forall k | 0 <= k < |s| - 1 :: s[1..][k] == s[k + 1]; }
      SplitNoDelim(s[1..], d);
      assert [s[0]] + s[1..] == s;
    }
  }

  /** Splitting at the first separator, when the text before it has none. */
  lemma {:induction false} SplitAfter(a: string, d: char, b: string)
    requires d !in a
    ensures Split(a + [d] + b, d) == [a] + Split(b, d)
    decreases |a|
  {
    var s := a + [d] + b;
    if a == [] {
      assert s == [d] + b && s[1..] == b;
    } else {
      assert s[0] == a[0] && s[1..] == a[1..] + [d] + b;
      assert d !in a[1..] by { assert forall k | 0 <= k < |a| - 1 :: a[1..][k] == a[k + 1]; }
      SplitAfter(a[1..], d, b);
      assert [a[0]] + a[1..] == a;
    }
  }

  /** Two pieces around one separator split back into the two pieces. */
  lemma SplitPair(a: string, d: char, b: string)
    requires d !in a && d !in b
    ensures Split(a + [d] + b, d) == [a, b]
  {
    SplitAfter(a, d, b);
    SplitNoDelim(b, d);
  }

  /** Text of digits holds no other character. */
  lemma DigitsWithout(s: string, c: char)
    requires AllDigits(s) && !IsDigit(c)
    ensures c !in s
  {
    assert forall k | 0 <= k < |s| :: s[k] != c;
  }

  /** Joining parts that do not contain the separator and splitting again
      gives back the parts. */
  lemma {:induction false} JoinSplit(parts: seq<string>, d: char)
    requires |parts| >= 1 && forall k | 0 <= k < |parts| :: d !in parts[k]
    ensures Split(JoinWith(parts, d), d) == parts
    decreases |parts|
  {
    if |parts| == 1 {
      SplitNoDelim(parts[0], d);
    } else {
      JoinSplit(parts[1..], d);
      SplitAfter(parts[0], d, JoinWith(parts[1..], d));
      assert [parts[0]] + parts[1..] == parts;
    }
  }

  /** A join of non-empty parts starts with the first part's first
      character and ends with the last part's last character. */
  lemma {:induction false} JoinWithEnds(parts: seq<string>, d: char)
    requires |parts| >= 1 && forall k | 0 <= k < |parts| :: parts[k] != []
    ensures var r := JoinWith(parts, d);
            r != [] && r[0] == parts[0][0] && r[|r| - 1] == parts[|parts| - 1][|parts[|parts| - 1]| - 1]
    decreases |parts|
  {
    if |parts| > 1 {
      JoinWithEnds(parts[1..], d);
    }
  }

  /** A character absent from the text is absent from every part of its split. */
  lemma {:induction false} SplitKeepsOut(s: string, d: char, c: char)
    requires c !in s
    ensures forall k | 0 <= k < |Split(s, d)| :: c !in Split(s, d)[k]
    decreases |s|
  {
    if s != [] {
      assert c !in s[1..] by { assert forall k | 0 <= k < |s| - 1 :: s[1..][k] == s[k + 1]; }
      SplitKeepsOut(s[1..], d, c);
    }
  }

  /** A character absent from the text is absent from its strip. */
  lemma StripKeepsOut(s: string, c: char)
    requires c !in s
    ensures c !in Strip(s)
  {
    var r := Strip(s);
    var i := |s| - |LStrip(s)|;
    assert forall k | 0 <= k < |r| :: r[k] == s[i + k];
  }
}
