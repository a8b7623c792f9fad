/** POSIX paths as `pathlib` shows them: strings with `/` separators and no
    trailing or doubled separator. */
module Paths {
  import opened Strings

  const Sep: char := '/'

  /** The index just past the last separator (0 when there is none). */
  function NameStart(p: string): (i: nat)
    ensures i <= |p|
    ensures 0 < i ==> p[i - 1] == Sep
    ensures forall k | i <= k < |p| :: p[k] != Sep
  {
    if p == [] then 0 else if p[|p| - 1] == Sep then |p| else NameStart(p[..|p| - 1])
  }

  /** `Path.name`: the final component. */
  function Name(p: string): (r: string)
    ensures Sep !in r
    ensures |r| <= |p| && r == p[|p| - |r|..]
  {
    p[NameStart(p)..]
  }

  /** `str.rfind(c)`: the index of the last `c`, if any. */
  function RFind(s: string, c: char): (r: Option<nat>)
    ensures r.Some? ==> r.value < |s| && s[r.value] == c
    ensures forall k | 0 <= k < |s| && (r.None? || r.value < k) :: s[k] != c
  {
    if s == [] then None
    else if s[|s| - 1] == c then Some(|s| - 1)
    else RFind(s[..|s| - 1], c)
  }

  /** Where `Path.suffix` starts in the name: at the last dot, provided the
      dot is neither the first nor the last character. */
  function SuffixStart(name: string): (i: nat)
    ensures i <= |name|
  {
    match RFind(name, '.')
    case Some(d) => if 0 < d < |name| - 1 then d else |name|
    case None => |name|
  }

  /** `Path.suffix` */
  function Suffix(p: string): (r: string)
    ensures r == [] || (|r| >= 2 && r[0] == '.' && '.' !in r[1..])
  {
    var n := Name(p);
    var i := SuffixStart(n);
    assert forall k | i < k < |n| :: n[k] != '.';
    n[i..]
  }

  /** `Path.stem` */
  function Stem(p: string): (r: string)
    ensures Sep !in r
  {
    var n := Name(p);
    n[..SuffixStart(n)]
  }

  /** The stem and the suffix together make up the name. */
  lemma StemSuffix(p: string)
    ensures Stem(p) + Suffix(p) == Name(p)
    ensures Suffix(p) == [] ==> Stem(p) == Name(p)
  {
  }

  /** `Path.parent` */
  function Parent(p: string): string {
    var i := NameStart(p);
    if i == 0 then "." else if i == 1 then "/" else p[..i - 1]
  }

  predicate IsAbsolute(p: string) {
    p != [] && p[0] == Sep
  }

  /** `Path(a) / b`: an absolute `b` replaces `a` altogether. */
  function Join(a: string, b: string): (r: string)
    ensures IsAbsolute(b) ==> r == b
    ensures !IsAbsolute(b) && b != [] && a != [] && a != "." && a[|a| - 1] != Sep ==> r == a + [Sep] + b
  {
    if IsAbsolute(b) then b
    else if b == [] then a
    else if a == [] || a == "." then b
    else if a[|a| - 1] == Sep then a + b
    else a + [Sep] + b
  }

  /** Joining a single relative component and taking the parent again gives
      back the directory, and the component becomes the name. */
  lemma JoinParent(a: string, b: string)
    requires b != [] && Sep !in b
    requires a != [] && a != "." && a != "/" && a[|a| - 1] != Sep
    ensures Name(Join(a, b)) == b
    ensures Parent(Join(a, b)) == a
  {
    var r := a + [Sep] + b;
    assert Join(a, b) == r;
    NameStartAppend(a, b);
  }

  lemma {:induction false} NameStartAppend(a: string, b: string)
    requires Sep !in b
    ensures NameStart(a + [Sep] + b) == |a| + 1
    decreases |b|
  {
    var r := a + [Sep] + b;
    if b == [] {
    } else {
      assert r[..|r| - 1] == a + [Sep] + b[..|b| - 1];
      assert r[|r| - 1] == b[|b| - 1];
      NameStartAppend(a, b[..|b| - 1]);
    }
  }
}
