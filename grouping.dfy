/** Grouping a list into a dictionary of lists, as `categorize_files` does:
    every element not skipped is appended to the list of its group, the
    groups keyed in order of first appearance. The skip test and the
    grouping are parameters, so these facts hold whatever they are. */
module Grouping {
  import opened Seqs

  /** The elements, not skipped, whose group is `c`. */
  function InGroup(skip: string -> bool, group: string -> string, c: string): string -> bool {
    f => !skip(f) && group(f) == c
  }

  function Kept(skip: string -> bool): string -> bool {
    f => !skip(f)
  }

  /** The groups of the elements not skipped, in order of first appearance:
      the key order of the dictionary. */
  function GroupNames(files: seq<string>, skip: string -> bool, group: string -> string): (names: seq<string>)
    decreases |files|
  {
    if |files| == 0 then []
    else
      var init, f := files[..|files| - 1], files[|files| - 1];
      var names := GroupNames(init, skip, group);
      if skip(f) || group(f) in names then names else names + [group(f)]
  }

  predicate Distinct(names: seq<string>) {
    forall i, j | 0 <= i < j < |names| :: names[i] != names[j]
  }

  /** A group is named iff some element not skipped belongs to it. */
  lemma {:induction false} GroupNamesMembers(files: seq<string>, skip: string -> bool, group: string -> string, c: string)
    ensures c in GroupNames(files, skip, group) <==> Filter(files, InGroup(skip, group, c)) != []
    decreases |files|
  {
    if |files| != 0 {
      var init, f := files[..|files| - 1], files[|files| - 1];
      assert files == init + [f];
      GroupNamesMembers(init, skip, group, c);
      FilterSnoc(init, f, InGroup(skip, group, c));
      assert InGroup(skip, group, c)(f) == (!skip(f) && group(f) == c);
    }
  }

  /** No group is named twice. */
  lemma {:induction false} GroupNamesDistinct(files: seq<string>, skip: string -> bool, group: string -> string)
    ensures Distinct(GroupNames(files, skip, group))
    decreases |files|
  {
    if |files| != 0 {
      GroupNamesDistinct(files[..|files| - 1], skip, group);
    }
  }

  /** How many elements the named groups hold together. */
  function SizeSum(names: seq<string>, files: seq<string>, skip: string -> bool, group: string -> string): nat
    decreases |names|
  {
    if |names| == 0 then 0
    else SizeSum(names[..|names| - 1], files, skip, group)
         + |Filter(files, InGroup(skip, group, names[|names| - 1]))|
  }

  /** One more element adds one to the total when it is kept and its group
      is among the (distinct) names, and nothing otherwise. */
  lemma {:induction false} SizeSumSnoc(names: seq<string>, init: seq<string>, f: string,
                                       skip: string -> bool, group: string -> string)
    requires Distinct(names)
    ensures SizeSum(names, init + [f], skip, group)
            == SizeSum(names, init, skip, group) + (if !skip(f) && group(f) in names then 1 else 0)
    decreases |names|
  {
    if |names| != 0 {
      var front, c := names[..|names| - 1], names[|names| - 1];
      assert names == front + [c];
      SizeSumSnoc(front, init, f, skip, group);
      FilterSnoc(init, f, InGroup(skip, group, c));
      assert InGroup(skip, group, c)(f) == (!skip(f) && group(f) == c);
      assert c !in front by {
        forall i | 0 <= i < |front| ensures front[i] != c {
          assert front[i] == names[i];
        }
      }
    }
  }

  /** Every kept element is in exactly one group: the group sizes add up to
      the number of kept elements. */
  lemma {:induction false} GroupsCover(files: seq<string>, skip: string -> bool, group: string -> string)
    ensures SizeSum(GroupNames(files, skip, group), files, skip, group) == |Filter(files, Kept(skip))|
    decreases |files|
  {
    if |files| != 0 {
      var init, f := files[..|files| - 1], files[|files| - 1];
      var names := GroupNames(init, skip, group);
      assert files == init + [f];
      GroupsCover(init, skip, group);
      GroupNamesDistinct(init, skip, group);
      SizeSumSnoc(names, init, f, skip, group);
      FilterSnoc(init, f, Kept(skip));
      assert Kept(skip)(f) == !skip(f);
      if !skip(f) && group(f) !in names {
        var c := group(f);
        GroupNamesMembers(init, skip, group, c);
        FilterSnoc(init, f, InGroup(skip, group, c));
        assert InGroup(skip, group, c)(f);
        assert (names + [c])[..|names|] == names;
      }
    }
  }

  /** The sum of the sizes of the named lists of `groups` (a name without a
      list adds nothing). */
  function TotalSize(names: seq<string>, groups: map<string, seq<string>>): nat
    decreases |names|
  {
    if |names| == 0 then 0
    else
      var c := names[|names| - 1];
      TotalSize(names[..|names| - 1], groups) + (if c in groups then |groups[c]| else 0)
  }

  /** Lists as long as the groups they hold add up to the same total. */
  lemma {:induction false} TotalSizeIs(names: seq<string>, groups: map<string, seq<string>>, files: seq<string>,
                                       skip: string -> bool, group: string -> string)
    requires forall i | 0 <= i < |names| ::
      names[i] in groups && |groups[names[i]]| == |Filter(files, InGroup(skip, group, names[i]))|
    ensures TotalSize(names, groups) == SizeSum(names, files, skip, group)
    decreases |names|
  {
    if |names| != 0 {
      TotalSizeIs(names[..|names| - 1], groups, files, skip, group);
    }
  }

  /** `names` and `groups` hold the grouping of `done`: the names in order
      of first appearance, and under each name its elements in order. */
  ghost predicate Grouped(done: seq<string>, skip: string -> bool, group: string -> string,
                          names: seq<string>, groups: map<string, seq<string>>) {
    && names == GroupNames(done, skip, group)
    && (forall c :: c in groups <==> c in names)
    && (forall c | c in groups :: groups[c] == Filter(done, InGroup(skip, group, c)))
  }

  /** One step of the grouping loop for an element `f` that is not
      skipped and whose group is `c`: `f` is appended to the list of a
      known group, or opens a list of its own at the end of the key order. */
  lemma GroupAdd(done: seq<string>, f: string, skip: string -> bool, group: string -> string,
                 names: seq<string>, groups: map<string, seq<string>>, c: string)
    requires Grouped(done, skip, group, names, groups)
    requires !skip(f) && group(f) == c
    ensures c in groups ==> Grouped(done + [f], skip, group, names, groups[c := groups[c] + [f]])
    ensures c !in groups ==> Grouped(done + [f], skip, group, names + [c], groups[c := [f]])
  {
    GroupStep(done, f, skip, group, names, groups);
  }

  /** One step of the grouping loop for a skipped element: nothing changes. */
  lemma GroupSkip(done: seq<string>, f: string, skip: string -> bool, group: string -> string,
                  names: seq<string>, groups: map<string, seq<string>>)
    requires Grouped(done, skip, group, names, groups)
    requires skip(f)
    ensures Grouped(done + [f], skip, group, names, groups)
  {
    GroupStep(done, f, skip, group, names, groups);
  }

  /** One step of the grouping loop: a skipped element changes nothing, an
      element of a known group is appended to its list, and an element of
      a new group opens a list of its own at the end of the key order. */
  lemma GroupStep(done: seq<string>, f: string, skip: string -> bool, group: string -> string,
                  names: seq<string>, groups: map<string, seq<string>>)
    requires Grouped(done, skip, group, names, groups)
    ensures skip(f) ==> Grouped(done + [f], skip, group, names, groups)
    ensures !skip(f) && group(f) in groups ==>
      Grouped(done + [f], skip, group, names, groups[group(f) := groups[group(f)] + [f]])
    ensures !skip(f) && group(f) !in groups ==>
      Grouped(done + [f], skip, group, names + [group(f)], groups[group(f) := [f]])
  {
    var s := done + [f];
    assert s[..|s| - 1] == done;
    forall c ensures Filter(s, InGroup(skip, group, c))
                     == Filter(done, InGroup(skip, group, c)) + (if !skip(f) && group(f) == c then [f] else []) {
      FilterSnoc(done, f, InGroup(skip, group, c));
      assert InGroup(skip, group, c)(f) == (!skip(f) && group(f) == c);
    }
    if !skip(f) && group(f) !in groups {
      GroupNamesMembers(done, skip, group, group(f));
    }
  }

  /** The grouping loop: every element not skipped is appended to the list
      of its group, a new group opening an empty list at the end of the
      key order. */
  method GroupBy(files: seq<string>, skip: string -> bool, group: string -> string)
    returns (names: seq<string>, groups: map<string, seq<string>>)
    ensures Grouped(files, skip, group, names, groups)
  {
    names, groups := [], map[];
    var i := 0;
    while i < |files|
      invariant 0 <= i <= |files|
      invariant Grouped(files[..i], skip, group, names, groups)
    {
      var f := files[i];
      assert files[..i + 1] == files[..i] + [f];
      if skip(f) {
        GroupSkip(files[..i], f, skip, group, names, groups);
      } else {
        var c := group(f);
        GroupAdd(files[..i], f, skip, group, names, groups, c);
        if c in groups {
          groups := groups[c := groups[c] + [f]];
        } else {
          groups := groups[c := [f]];
          names := names + [c];
        }
      }
      i := i + 1;
    }
    assert files[..i] == files;
  }

  /** `for name in groups: groups[name].sort(key=key)`. */
  method SortGroups(names: seq<string>, groups: map<string, seq<string>>, key: string -> int)
    returns (sorted: map<string, seq<string>>)
    requires Distinct(names) && forall c :: c in groups <==> c in names
    ensures forall c :: c in sorted <==> c in groups
    ensures forall c | c in sorted :: sorted[c] == SortByKey(groups[c], key)
  {
    sorted := groups;
    var j := 0;
    while j < |names|
      invariant 0 <= j <= |names|
      invariant forall c :: c in sorted <==> c in names
      invariant forall k | 0 <= k < |names| ::
        sorted[names[k]] == (if k < j then SortByKey(groups[names[k]], key) else groups[names[k]])
    {
      var c := names[j];
      assert forall k | 0 <= k < |names| && k != j :: names[k] != c;
      sorted := sorted[c := SortByKey(sorted[c], key)];
      j := j + 1;
    }
    forall c | c in sorted ensures sorted[c] == SortByKey(groups[c], key) {
      var k :| 0 <= k < |names| && names[k] == c;
    }
  }

  /** Sorting a group's list keeps exactly the group's elements. */
  lemma SortedGroupMembers(files: seq<string>, skip: string -> bool, group: string -> string,
                           c: string, key: string -> int, f: string)
    ensures f in SortByKey(Filter(files, InGroup(skip, group, c)), key)
            <==> f in files && !skip(f) && group(f) == c
  {
    var l := Filter(files, InGroup(skip, group, c));
    SortPermutes(l, key);
    assert f in SortByKey(l, key) <==> f in multiset(l);
    FilterMembers(files, InGroup(skip, group, c), f);
  }

  /** `categorize_files` in general: group the kept elements, then sort
      every group's list by `key`. */
  method GroupAndSort(files: seq<string>, skip: string -> bool, group: string -> string, key: string -> int)
    returns (names: seq<string>, sorted: map<string, seq<string>>)
    ensures names == GroupNames(files, skip, group) && Distinct(names)
    ensures forall c :: c in sorted <==> c in names
    ensures forall c | c in sorted :: sorted[c] == SortByKey(Filter(files, InGroup(skip, group, c)), key)
    ensures TotalSize(names, sorted) == |Filter(files, Kept(skip))|
  {
    var grouped;
    names, grouped := GroupBy(files, skip, group);
    GroupNamesDistinct(files, skip, group);
    sorted := SortGroups(names, grouped, key);
    forall i | 0 <= i < |names|
      ensures names[i] in sorted && |sorted[names[i]]| == |Filter(files, InGroup(skip, group, names[i]))|
    {
      SortPermutes(grouped[names[i]], key);
    }
    TotalSizeIs(names, sorted, files, skip, group);
    GroupsCover(files, skip, group);
  }
}
