/** Naming in `ZipExtractor.extract_zip`: the folder a zip file is unpacked
    into, and how each member name is cleaned before it is joined to that
    folder. The host is POSIX, so `os.sep` is `/`. */
module Extractor {
  import opened Strings
  import opened Paths

  /** The extraction folder: the given directory, or else the zip file's own
      directory, joined with the zip file's stem with surrounding whitespace
      removed. */
  function ExtractDir(zipPath: string, extractDir: Option<string>): string {
    var base := if extractDir.Some? then extractDir.value else Parent(zipPath);
    Join(base, Strip(Stem(zipPath)))
  }

  /** Below a usable base directory the extraction folder is a direct child
      of that base, named by the stripped stem. */
  lemma ExtractDirPlace(zipPath: string, extractDir: Option<string>)
    ensures var base := if extractDir.Some? then extractDir.value else Parent(zipPath);
            var folder := Strip(Stem(zipPath));
            folder != [] && base != [] && base != "." && base != "/" && base[|base| - 1] != Sep
            ==> Name(ExtractDir(zipPath, extractDir)) == folder && Parent(ExtractDir(zipPath, extractDir)) == base
  {
    var base := if extractDir.Some? then extractDir.value else Parent(zipPath);
    assert ExtractDir(zipPath, extractDir) == Join(base, Strip(Stem(zipPath)));
    FolderUnder(zipPath, base);
  }

  /** The stripped stem joined below a usable base is a child of that base. */
  lemma FolderUnder(zipPath: string, base: string)
    ensures var folder := Strip(Stem(zipPath));
            folder != [] && base != [] && base != "." && base != "/" && base[|base| - 1] != Sep
            ==> Name(Join(base, folder)) == folder && Parent(Join(base, folder)) == base
  {
    var folder := Strip(Stem(zipPath));
    FolderHasNoSep(zipPath);
    if folder != [] && base != [] && base != "." && base != "/" && base[|base| - 1] != Sep {
      PlaceUnder(base, folder, Join(base, folder));
    }
  }

  lemma FolderHasNoSep(zipPath: string)
    ensures Sep !in Strip(Stem(zipPath))
  {
    StripKeepsOut(Stem(zipPath), Sep);
  }

  lemma PlaceUnder(base: string, folder: string, r: string)
    requires folder != [] && Sep !in folder && r == Join(base, folder)
    requires base != [] && base != "." && base != "/" && base[|base| - 1] != Sep
    ensures Name(r) == folder && Parent(r) == base
  {
    JoinParent(base, folder);
  }

  /** Removes every `..` left to right, one pair at a time: Python's
      `s.replace('..', '')`. */
  function DropDotDot(s: string): (r: string)
    ensures |r| <= |s|
    ensures s != [] && s[0] != '.' ==> r != [] && r[0] == s[0]
    decreases |s|
  {
    if |s| >= 2 && s[0] == '.' && s[1] == '.' then DropDotDot(s[2..])
    else if s == [] then []
    else [s[0]] + DropDotDot(s[1..])
  }

  lemma {:induction false} DropDotDotIsReplace(s: string)
    ensures DropDotDot(s) == Replace(s, "..", "")
    decreases |s|
  {
    if |s| >= 2 && s[0] == '.' && s[1] == '.' {
      assert OccursAt(s, "..", 0);
      DropDotDotIsReplace(s[2..]);
    } else if s != [] {
      assert !OccursAt(s, "..", 0) by {
        if |s| >= 2 { assert s[..2][0] == s[0] && s[..2][1] == s[1]; }
      }
      DropDotDotIsReplace(s[1..]);
    }
  }

  /** No two adjacent dots. */
  predicate NoDoubleDot(s: string) {
    forall i | 0 <= i < |s| - 1 :: !(s[i] == '.' && s[i + 1] == '.')
  }

  lemma NoDoubleDotContains(s: string)
    ensures NoDoubleDot(s) <==> !Contains(s, "..")
  {
    if !NoDoubleDot(s) {
      var i :| 0 <= i < |s| - 1 && s[i] == '.' && s[i + 1] == '.';
      assert s[i..i + 2] == "..";
      assert OccursAt(s, "..", i);
    }
    if Contains(s, "..") {
      var i :| 0 <= i <= |s| && OccursAt(s, "..", i);
      assert s[i..i + 2][0] == s[i] && s[i..i + 2][1] == s[i + 1];
    }
  }

  /** After the removal no two dots are adjacent. */
  lemma {:induction false} DropDotDotClean(s: string)
    ensures NoDoubleDot(DropDotDot(s))
    decreases |s|
  {
    var r := DropDotDot(s);
    if |s| >= 2 && s[0] == '.' && s[1] == '.' {
      DropDotDotClean(s[2..]);
    } else if s != [] {
      var t := s[1..];
      DropDotDotClean(t);
      var rt := DropDotDot(t);
      assert r == [s[0]] + rt;
      forall i | 0 <= i < |r| - 1 ensures !(r[i] == '.' && r[i + 1] == '.') {
        if i > 0 {
          assert r[i] == rt[i - 1] && r[i + 1] == rt[i];
        } else if s[0] == '.' {
          assert t != [] ==> t[0] != '.';
        }
      }
    }
  }

  /** Replacing one character by another, neither of them a dot, leaves the
      dots where they were. */
  lemma ReplaceCharKeepsDots(s: string, a: char, b: char)
    requires a != '.' && b != '.'
    ensures NoDoubleDot(s) ==> NoDoubleDot(ReplaceChar(s, a, b))
  {
  }

  /** The separators of a cleaned name, all `os.sep`. */
  function NormalizeSeps(b: string): (r: string)
    ensures r == ReplaceChar(b, '\\', Sep)
  {
    ReplaceSingleIsReplaceChar(b, '\\', Sep);
    var c := Replace(b, "\\", [Sep]);
    ReplaceSingleIsReplaceChar(c, '/', Sep);
    assert ReplaceChar(c, '/', Sep) == c;
    Replace(c, "/", [Sep])
  }

  /** The member name as the extractor cleans it: surrounding whitespace and
      then leading separators are dropped, every `..` is removed, and both
      kinds of separator become `os.sep`. */
  function SanitizeMemberName(name: string): (r: string)
    ensures !Contains(r, "..")
    ensures '\\' !in r
    ensures |r| <= |name|
  {
    var a := LStripChars(Strip(name), {'/', '\\'});
    CleanFacts(a);
    NormalizeSeps(Replace(a, "..", ""))
  }

  /** What removing `..` and normalising separators guarantee of any text. */
  lemma CleanFacts(a: string)
    ensures var r := NormalizeSeps(Replace(a, "..", ""));
            NoDoubleDot(r) && !Contains(r, "..") && '\\' !in r && |r| <= |a|
  {
    DropDotDotIsReplace(a);
    var b := Replace(a, "..", "");
    DropDotDotClean(a);
    ReplaceCharKeepsDots(b, '\\', Sep);
    var r := NormalizeSeps(b);
    NoDoubleDotContains(r);
  }

  /** The path the extractor as written sends a member to; members whose
      cleaned name is empty are skipped. */
  function MemberTargetAsWritten(dir: string, name: string): Option<string> {
    var clean := SanitizeMemberName(name);
    if clean == [] then None else Some(Join(dir, clean))
  }

  /** A member named `../x` is cleaned to `/x`, an absolute path, so it is
      written to `/x` whatever the extraction folder: the leading separators
      are stripped before the `..` that hides one of them is removed. */
  lemma DotDotPrefixEscapes(dir: string)
    ensures SanitizeMemberName("../x") == "/x"
    ensures MemberTargetAsWritten(dir, "../x") == Some("/x")
  {
    var n := "../x";
    StripUnchanged(n);
    LStripDotDot();
    DropDotDotExample();
    NormalizeSlashX();
  }

  lemma LStripDotDot()
    ensures LStripChars("../x", {'/', '\\'}) == "../x"
  {
    assert "../x"[0] == '.';
    LStripCharsNone("../x", {'/', '\\'});
  }

  lemma DropDotDotExample()
    ensures Replace("../x", "..", "") == "/x"
  {
    var n := "../x";
    DropDotDotIsReplace(n);
    assert n[2..] == "/x";
    assert "/x"[1..] == "x";
  }

  lemma NormalizeSlashX()
    ensures NormalizeSeps("/x") == "/x"
  {
    var r := NormalizeSeps("/x");
    assert |r| == 2 && r[0] == '/' && r[1] == 'x';
  }

  /** The cleaning the extractor's own comment asks for: the same steps, with
      the leading separators stripped last, so that nothing the `..`
      removal uncovers can make the name absolute. */
  function SafeMemberName(name: string): (r: string)
    ensures !Contains(r, "..")
    ensures '\\' !in r
    ensures !IsAbsolute(r)
    ensures |r| <= |name|
  {
    var c := NormalizeSeps(Replace(Strip(name), "..", ""));
    CleanFacts(Strip(name));
    LStripKeepsClean(c);
    LStripChars(c, {'/', '\\'})
  }

  /** Dropping leading separators keeps a clean name clean. */
  lemma LStripKeepsClean(c: string)
    requires NoDoubleDot(c) && '\\' !in c
    ensures var r := LStripChars(c, {'/', '\\'});
            !Contains(r, "..") && '\\' !in r
  {
    var r := LStripChars(c, {'/', '\\'});
    forall i | 0 <= i < |r| - 1 ensures !(r[i] == '.' && r[i + 1] == '.') {
      assert r[i] == c[|c| - |r| + i] && r[i + 1] == c[|c| - |r| + i + 1];
    }
    NoDoubleDotContains(r);
    assert forall i | 0 <= i < |r| :: r[i] == c[|c| - |r| + i];
  }

  /** With the corrected cleaning every non-empty member lands inside the
      extraction folder, under a relative name free of `..`. */
  lemma SafeTargetInside(dir: string, name: string)
    requires dir != [] && dir != "." && dir[|dir| - 1] != Sep
    ensures var safe := SafeMemberName(name);
            safe != [] ==> Join(dir, safe) == dir + [Sep] + safe && !Contains(safe, "..")
  {
  }

  /** The path a member is written to under the corrected cleaning; members
      whose cleaned name is empty are skipped. */
  function MemberTarget(dir: string, name: string): Option<string> {
    var safe := SafeMemberName(name);
    if safe == [] then None else Some(Join(dir, safe))
  }

  /** The primary targets of the members, in archive order: the path each
      directory member is made at, and each file member written to when
      that write succeeds (see `FallbackTarget` for when it does not). */
  method ExtractTargets(dir: string, members: seq<string>) returns (targets: seq<string>)
    ensures |targets| <= |members|
    ensures targets == Targets(dir, members)
  {
    targets := CollectKept(members, TargetOf(dir));
  }

  function Targets(dir: string, members: seq<string>): seq<string> {
    Kept(members, TargetOf(dir))
  }

  function TargetOf(dir: string): string -> Option<string> {
    name => MemberTarget(dir, name)
  }

  /** The values of the entries of `xs` that `f` maps to `Some`, in order. */
  function Kept<T, U>(xs: seq<T>, f: T -> Option<U>): (r: seq<U>)
    ensures |r| <= |xs|
  {
    if xs == [] then []
    else
      var rest := Kept(xs[..|xs| - 1], f);
      match f(xs[|xs| - 1])
      case Some(y) => rest + [y]
      case None => rest
  }

  /** Every value kept is the value of some entry. */
  lemma {:induction false} KeptFrom<T, U>(xs: seq<T>, f: T -> Option<U>, y: U)
    requires y in Kept(xs, f)
    ensures exists x | x in xs :: f(x) == Some(y)
    decreases |xs|
  {
    var rest := Kept(xs[..|xs| - 1], f);
    var last := xs[|xs| - 1];
    if y in rest {
      KeptFrom(xs[..|xs| - 1], f, y);
      var x :| x in xs[..|xs| - 1] && f(x) == Some(y);
      assert x in xs;
    } else {
      assert f(last) == Some(y);
    }
  }

  /** Every primary target lies directly inside the extraction folder, under
      a non-empty relative name that holds no `..`. */
  lemma TargetsInside(dir: string, members: seq<string>)
    requires dir != [] && dir != "." && dir[|dir| - 1] != Sep
    ensures forall t | t in Targets(dir, members) ::
              |t| > |dir| + 1 && t[..|dir| + 1] == dir + [Sep] && !Contains(t[|dir| + 1..], "..")
  {
    forall t | t in Targets(dir, members)
      ensures |t| > |dir| + 1 && t[..|dir| + 1] == dir + [Sep] && !Contains(t[|dir| + 1..], "..")
    {
      KeptFrom(members, TargetOf(dir), t);
      var name :| name in members && TargetOf(dir)(name) == Some(t);
      var safe := SafeMemberName(name);
      SafeTargetInside(dir, name);
      assert t == dir + [Sep] + safe;
      assert t[|dir| + 1..] == safe;
    }
  }

  /** Where a file member is written when the write to its primary target
      fails: the raw member name with its separators normalised, neither
      stripped nor rid of `..`. */
  function FallbackTarget(dir: string, name: string): string {
    Join(dir, NormalizeSeps(name))
  }

  /** The fallback keeps `..`: member "../x" falls back to "dir/../x", which
      leaves the folder whatever cleaning the primary target used. */
  lemma FallbackKeepsDotDot(dir: string)
    requires dir != [] && dir != "." && dir[|dir| - 1] != Sep
    ensures FallbackTarget(dir, "../x") == dir + "/../x"
    ensures Contains(FallbackTarget(dir, "../x")[|dir| + 1..], "..")
  {
    var r := NormalizeSeps("../x");
    assert |r| == 4 && r[0] == '.' && r[1] == '.' && r[2] == '/' && r[3] == 'x';
    assert r == "../x";
    var t := FallbackTarget(dir, "../x");
    assert t[|dir| + 1..] == "../x";
    ContainsWitness(t[|dir| + 1..], "..", 0);
  }

  /** The loop over the archive's members: each member that yields a value
      adds it, and the others are skipped. */
  method CollectKept<T, U>(xs: seq<T>, f: T -> Option<U>) returns (r: seq<U>)
    ensures r == Kept(xs, f)
  {
    r := [];
    var i := 0;
    while i < |xs|
      invariant 0 <= i <= |xs|
      invariant r == Kept(xs[..i], f)
    {
      assert xs[..i + 1][..i] == xs[..i];
      var t := f(xs[i]);
      if t.Some? {
        r := r + [t.value];
      }
      i := i + 1;
    }
    assert xs[..i] == xs;
  }
}
