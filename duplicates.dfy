/**
 * The pre-flight check of "save as": the listed paths are mapped to their file
 * names, grouped, the groups ordered by size (largest first, ties kept in
 * order), those of size one dropped, and the remaining names joined, each
 * followed by a line break. A non-empty report stops the batch.
 */
module Duplicates {
  import opened Paths

  /** A group of equal file names: the name and how many times it occurs. */
  datatype Group = Group(value: string, count: nat)

  ghost predicate Distinct<T>(s: seq<T>) {
    forall i, j :: 0 <= i < j < |s| ==> s[i] != s[j]
  }

  function Values(gs: seq<Group>): (vs: seq<string>)
    ensures |vs| == |gs|
  {
    seq(|gs|, i requires 0 <= i < |gs| => gs[i].value)
  }

  ghost predicate DistinctValues(gs: seq<Group>) {
    forall i, j :: 0 <= i < j < |gs| ==> gs[i].value != gs[j].value
  }

  /** The position of the first occurrence of `x` in `xs`. */
  function FirstIndex(xs: seq<string>, x: string): (k: nat)
    requires x in xs
    ensures k < |xs| && xs[k] == x && x !in xs[..k]
  {
    if x in xs[..|xs| - 1] then FirstIndex(xs[..|xs| - 1], x) else |xs| - 1
  }

  // ---------------------------------------------------------------------------
  // GroupBy(x => x): groups in the order their keys first occur

  /** Counts one more occurrence of `x`: in its group if there is one, else in a new last group. */
  function Tally(gs: seq<Group>, x: string): (r: seq<Group>)
    ensures Values(r) == if x in Values(gs) then Values(gs) else Values(gs) + [x]
  {
    if gs == [] then [Group(x, 1)]
    else
      assert Values(gs) == [gs[0].value] + Values(gs[1..]);
      if gs[0].value == x then
        assert Values([Group(x, gs[0].count + 1)] + gs[1..]) == Values(gs);
        [Group(x, gs[0].count + 1)] + gs[1..]
      else
        var t := Tally(gs[1..], x);
        assert Values([gs[0]] + t) == [gs[0].value] + Values(t);
        [gs[0]] + t
  }

  function GroupBy(xs: seq<string>): (gs: seq<Group>)
    ensures forall x :: x in Values(gs) <==> x in xs
  {
    if xs == [] then [] else Tally(GroupBy(xs[..|xs| - 1]), xs[|xs| - 1])
  }

  lemma {:induction false} TallyFacts(gs: seq<Group>, x: string)
    requires DistinctValues(gs)
    ensures x in Values(gs) ==> |Tally(gs, x)| == |gs|
    ensures x !in Values(gs) ==> |Tally(gs, x)| == |gs| + 1 && Tally(gs, x)[|gs|] == Group(x, 1)
    ensures forall i :: 0 <= i < |gs| ==>
      Tally(gs, x)[i] == Group(gs[i].value, gs[i].count + if gs[i].value == x then 1 else 0)
  {
    if gs != [] && gs[0].value != x {
      var t := Tally(gs[1..], x);
      assert Values(gs[1..]) == Values(gs)[1..];
      assert Values(gs) == [gs[0].value] + Values(gs[1..]);
      TallyFacts(gs[1..], x);
      assert Tally(gs, x) == [gs[0]] + t;
      forall i | 1 <= i < |gs| ensures Tally(gs, x)[i] == t[i - 1] && gs[i] == gs[1..][i - 1] {}
      if x !in Values(gs) {
        assert Tally(gs, x)[|gs|] == t[|gs| - 1];
      }
    } else if gs != [] {
      assert Values(gs)[0] == x;
    }
  }

  /** Every name of `xs` has a group in `gs`, and every group is for a name of `xs`. */
  ghost predicate SameNames(xs: seq<string>, gs: seq<Group>) {
    forall x :: x in xs <==> x in Values(gs)
  }

  /** Each group holds the number of times its name occurs in `xs`. */
  ghost predicate CountsMatch(xs: seq<string>, gs: seq<Group>) {
    forall i :: 0 <= i < |gs| ==> gs[i].count == multiset(xs)[gs[i].value]
  }

  /** The groups are in the order in which their names first occur in `xs`. */
  ghost predicate FirstOccurrenceOrder(xs: seq<string>, gs: seq<Group>) {
    forall i, j :: 0 <= i < j < |gs| ==>
      gs[i].value in xs && gs[j].value in xs && FirstIndex(xs, gs[i].value) < FirstIndex(xs, gs[j].value)
  }

  lemma TallyKeepsNames(ys: seq<string>, y: string, gs: seq<Group>)
    requires DistinctValues(gs) && SameNames(ys, gs)
    ensures DistinctValues(Tally(gs, y)) && SameNames(ys + [y], Tally(gs, y))
  {
    TallyFacts(gs, y);
    var r := Tally(gs, y);
    forall i | 0 <= i < |gs| ensures Values(r)[i] == Values(gs)[i] {}
    if y !in Values(gs) {
      forall i | 0 <= i < |gs| ensures r[i].value != y {
        assert Values(gs)[i] == gs[i].value;
      }
      assert Values(r) == Values(gs) + [y];
    } else {
      assert Values(r) == Values(gs);
    }
  }

  lemma TallyKeepsCounts(ys: seq<string>, y: string, gs: seq<Group>)
    requires DistinctValues(gs) && SameNames(ys, gs) && CountsMatch(ys, gs)
    ensures CountsMatch(ys + [y], Tally(gs, y))
  {
    TallyFacts(gs, y);
    var r := Tally(gs, y);
    assert multiset(ys + [y]) == multiset(ys) + multiset{y};
    forall i | 0 <= i < |r| ensures r[i].count == multiset(ys + [y])[r[i].value] {
      if i == |gs| {
        assert y !in Values(gs) && y !in ys;
      }
    }
  }

  lemma TallyKeepsOrder(ys: seq<string>, y: string, gs: seq<Group>)
    requires DistinctValues(gs) && SameNames(ys, gs) && FirstOccurrenceOrder(ys, gs)
    ensures FirstOccurrenceOrder(ys + [y], Tally(gs, y))
  {
    TallyFacts(gs, y);
    var r := Tally(gs, y);
    var xs := ys + [y];
    assert xs[..|xs| - 1] == ys;
    forall i | 0 <= i < |gs| ensures r[i].value in ys && FirstIndex(xs, r[i].value) == FirstIndex(ys, r[i].value) {
      assert Values(gs)[i] == gs[i].value;
    }
    if y !in Values(gs) {
      assert y !in ys;
      assert FirstIndex(xs, y) == |ys|;
    }
  }

  /**
   * GroupBy yields one group per distinct name, each with the number of times
   * the name occurs, in the order in which the names first occur.
   */
  lemma {:induction false} GroupByFacts(xs: seq<string>)
    ensures DistinctValues(GroupBy(xs))
    ensures SameNames(xs, GroupBy(xs))
    ensures CountsMatch(xs, GroupBy(xs))
    ensures FirstOccurrenceOrder(xs, GroupBy(xs))
  {
    if xs != [] {
      var ys, y := xs[..|xs| - 1], xs[|xs| - 1];
      assert xs == ys + [y];
      GroupByFacts(ys);
      TallyKeepsNames(ys, y, GroupBy(ys));
      TallyKeepsCounts(ys, y, GroupBy(ys));
      TallyKeepsOrder(ys, y, GroupBy(ys));
    }
  }

  // ---------------------------------------------------------------------------
  // OrderByDescending(x => x.Count): a stable sort, largest groups first

  ghost predicate SortedByCountDescending(gs: seq<Group>) {
    forall i, j :: 0 <= i < j < |gs| ==> gs[i].count >= gs[j].count
  }

  /** The groups of size `c`, in the order they appear. */
  function WithCount(gs: seq<Group>, c: nat): seq<Group> {
    if gs == [] then []
    else (if gs[0].count == c then [gs[0]] else []) + WithCount(gs[1..], c)
  }

  /** Places `g` in front of the first group that is not larger than it. */
  function InsertByCount(g: Group, sorted: seq<Group>): (r: seq<Group>)
    ensures |r| == |sorted| + 1
  {
    if sorted == [] || sorted[0].count <= g.count then [g] + sorted
    else [sorted[0]] + InsertByCount(g, sorted[1..])
  }

  function OrderByCountDescending(gs: seq<Group>): (r: seq<Group>)
    ensures |r| == |gs|
  {
    if gs == [] then [] else InsertByCount(gs[0], OrderByCountDescending(gs[1..]))
  }

  lemma {:induction false} InsertByCountPermutes(g: Group, s: seq<Group>)
    ensures multiset(InsertByCount(g, s)) == multiset(s) + multiset{g}
  {
    if !(s == [] || s[0].count <= g.count) {
      InsertByCountPermutes(g, s[1..]);
      assert s == [s[0]] + s[1..];
    }
  }

  lemma {:induction false} InsertByCountSorted(g: Group, s: seq<Group>)
    requires SortedByCountDescending(s)
    ensures SortedByCountDescending(InsertByCount(g, s))
  {
    if !(s == [] || s[0].count <= g.count) {
      var t := InsertByCount(g, s[1..]);
      InsertByCountSorted(g, s[1..]);
      InsertByCountPermutes(g, s[1..]);
      forall h | h in t ensures h.count <= s[0].count {
        assert h in multiset(t);
        if h != g {
          var k :| 0 <= k < |s[1..]| && s[1..][k] == h;
          assert s[k + 1] == h;
        }
      }
    }
  }

  /** `WithCount` of a list with a given first group. */
  lemma WithCountCons(h: Group, t: seq<Group>, c: nat)
    ensures WithCount([h] + t, c) == (if h.count == c then [h] else []) + WithCount(t, c)
  {
    assert ([h] + t)[0] == h && ([h] + t)[1..] == t;
  }

  lemma {:induction false} InsertByCountStable(g: Group, s: seq<Group>, c: nat)
    ensures WithCount(InsertByCount(g, s), c) == (if g.count == c then [g] else []) + WithCount(s, c)
  {
    if s == [] || s[0].count <= g.count {
      WithCountCons(g, s, c);
    } else {
      var t := InsertByCount(g, s[1..]);
      InsertByCountStable(g, s[1..], c);
      WithCountCons(s[0], t, c);
      WithCountCons(s[0], s[1..], c);
      assert s == [s[0]] + s[1..];
    }
  }

  lemma {:induction false} InsertByCountDistinct(g: Group, s: seq<Group>)
    requires DistinctValues(s) && g.value !in Values(s)
    ensures DistinctValues(InsertByCount(g, s))
  {
    var r := InsertByCount(g, s);
    if s == [] || s[0].count <= g.count {
      assert r[1..] == s;
      forall j | 0 <= j < |s| ensures s[j].value != g.value {
        assert Values(s)[j] == s[j].value;
      }
    } else {
      var t := InsertByCount(g, s[1..]);
      assert r == [s[0]] + t;
      assert g.value !in Values(s[1..]) by {
        forall i | 0 <= i < |s| - 1 ensures Values(s[1..])[i] == Values(s)[i + 1] {}
      }
      InsertByCountDistinct(g, s[1..]);
      InsertByCountPermutes(g, s[1..]);
      forall h | h in t ensures h.value != s[0].value {
        assert h in multiset(t);
        if h != g {
          var k :| 0 <= k < |s[1..]| && s[1..][k] == h;
          assert s[k + 1] == h;
        } else {
          assert Values(s)[0] == s[0].value;
        }
      }
    }
  }

  lemma {:induction false} OrderByCountDescendingPermutes(gs: seq<Group>)
    ensures multiset(OrderByCountDescending(gs)) == multiset(gs)
  {
    if gs != [] {
      OrderByCountDescendingPermutes(gs[1..]);
      InsertByCountPermutes(gs[0], OrderByCountDescending(gs[1..]));
      assert gs == [gs[0]] + gs[1..];
    }
  }

  lemma {:induction false} OrderByCountDescendingSorted(gs: seq<Group>)
    ensures SortedByCountDescending(OrderByCountDescending(gs))
  {
    if gs != [] {
      OrderByCountDescendingSorted(gs[1..]);
      InsertByCountSorted(gs[0], OrderByCountDescending(gs[1..]));
    }
  }

  lemma {:induction false} OrderByCountDescendingStable(gs: seq<Group>, c: nat)
    ensures WithCount(OrderByCountDescending(gs), c) == WithCount(gs, c)
  {
    if gs != [] {
      OrderByCountDescendingStable(gs[1..], c);
      InsertByCountStable(gs[0], OrderByCountDescending(gs[1..]), c);
    }
  }

  lemma {:induction false} OrderByCountDescendingDistinct(gs: seq<Group>)
    requires DistinctValues(gs)
    ensures DistinctValues(OrderByCountDescending(gs))
  {
    if gs != [] {
      var t := OrderByCountDescending(gs[1..]);
      OrderByCountDescendingDistinct(gs[1..]);
      OrderByCountDescendingPermutes(gs[1..]);
      assert gs[0].value !in Values(t) by {
        forall i | 0 <= i < |t| ensures t[i].value != gs[0].value {
          assert t[i] in multiset(gs[1..]);
          var k :| 0 <= k < |gs[1..]| && gs[1..][k] == t[i];
          assert gs[k + 1] == t[i];
        }
      }
      InsertByCountDistinct(gs[0], t);
    }
  }

  /**
   * Ordering by size is a permutation, puts larger groups first, and keeps
   * groups of equal size in their original order (it is stable).
   */
  lemma OrderByCountDescendingFacts(gs: seq<Group>)
    ensures SortedByCountDescending(OrderByCountDescending(gs))
    ensures multiset(OrderByCountDescending(gs)) == multiset(gs)
    ensures forall c :: WithCount(OrderByCountDescending(gs), c) == WithCount(gs, c)
    ensures DistinctValues(gs) ==> DistinctValues(OrderByCountDescending(gs))
  {
    OrderByCountDescendingSorted(gs);
    OrderByCountDescendingPermutes(gs);
    forall c ensures WithCount(OrderByCountDescending(gs), c) == WithCount(gs, c) {
      OrderByCountDescendingStable(gs, c);
    }
    if DistinctValues(gs) {
      OrderByCountDescendingDistinct(gs);
    }
  }

  // ---------------------------------------------------------------------------
  // FindAll(x => x.Count > 1)

  function Repeated(gs: seq<Group>): (r: seq<Group>)
    ensures |r| <= |gs|
    ensures forall i :: 0 <= i < |r| ==> r[i].count > 1
  {
    if gs == [] then []
    else (if gs[0].count > 1 then [gs[0]] else []) + Repeated(gs[1..])
  }

  lemma {:induction false} RepeatedMembers(gs: seq<Group>)
    ensures forall g :: g in Repeated(gs) <==> g in gs && g.count > 1
  {
    if gs != [] {
      RepeatedMembers(gs[1..]);
      assert gs == [gs[0]] + gs[1..];
    }
  }

  lemma {:induction false} RepeatedStable(gs: seq<Group>, c: nat)
    requires c > 1
    ensures WithCount(Repeated(gs), c) == WithCount(gs, c)
  {
    if gs != [] {
      RepeatedStable(gs[1..], c);
      var t := Repeated(gs[1..]);
      if gs[0].count > 1 {
        assert Repeated(gs) == [gs[0]] + t && (Repeated(gs))[1..] == t;
      } else {
        assert Repeated(gs) == t;
        assert WithCount(gs, c) == WithCount(gs[1..], c);
      }
    }
  }

  lemma {:induction false} RepeatedSorted(gs: seq<Group>)
    requires SortedByCountDescending(gs)
    ensures SortedByCountDescending(Repeated(gs))
  {
    if gs != [] {
      var t := Repeated(gs[1..]);
      RepeatedSorted(gs[1..]);
      RepeatedMembers(gs[1..]);
      if gs[0].count > 1 {
        assert Repeated(gs) == [gs[0]] + t;
        forall h | h in t ensures h.count <= gs[0].count {
          var k :| 0 <= k < |gs[1..]| && gs[1..][k] == h;
          assert gs[k + 1] == h;
        }
      } else {
        assert Repeated(gs) == t;
      }
    }
  }

  lemma {:induction false} RepeatedDistinct(gs: seq<Group>)
    requires DistinctValues(gs)
    ensures DistinctValues(Repeated(gs))
  {
    if gs != [] {
      var t := Repeated(gs[1..]);
      RepeatedDistinct(gs[1..]);
      RepeatedMembers(gs[1..]);
      if gs[0].count > 1 {
        assert Repeated(gs) == [gs[0]] + t;
        forall h | h in t ensures h.value != gs[0].value {
          var k :| 0 <= k < |gs[1..]| && gs[1..][k] == h;
          assert gs[k + 1] == h;
        }
      } else {
        assert Repeated(gs) == t;
      }
    }
  }

  /** Keeping the groups of size above one keeps their order, their sizes and distinctness. */
  lemma RepeatedFacts(gs: seq<Group>)
    ensures forall g :: g in Repeated(gs) <==> g in gs && g.count > 1
    ensures forall c :: c > 1 ==> WithCount(Repeated(gs), c) == WithCount(gs, c)
    ensures SortedByCountDescending(gs) ==> SortedByCountDescending(Repeated(gs))
    ensures DistinctValues(gs) ==> DistinctValues(Repeated(gs))
  {
    RepeatedMembers(gs);
    forall c | c > 1 ensures WithCount(Repeated(gs), c) == WithCount(gs, c) {
      RepeatedStable(gs, c);
    }
    if SortedByCountDescending(gs) {
      RepeatedSorted(gs);
    }
    if DistinctValues(gs) {
      RepeatedDistinct(gs);
    }
  }

  // ---------------------------------------------------------------------------
  // The report

  /** Each line followed by a line break, as the `ForEach` appends them. */
  function JoinLines(lines: seq<string>): (text: string)
    ensures lines != [] ==> |text| > 0 && text[|text| - 1] == '\n'
  {
    if lines == [] then "" else lines[0] + "\n" + JoinLines(lines[1..])
  }

  /** `files.Select(Path.GetFileName)` */
  function FileNames(paths: seq<string>): (names: seq<string>)
    ensures |names| == |paths|
    ensures forall i :: 0 <= i < |paths| ==> names[i] == GetFileName(paths[i])
  {
    seq(|paths|, i requires 0 <= i < |paths| => GetFileName(paths[i]))
  }

  function DuplicateGroups(names: seq<string>): seq<Group> {
    Repeated(OrderByCountDescending(GroupBy(names)))
  }

  /** The text the "save as" handler builds from the listed paths. */
  function DuplicateReport(paths: seq<string>): (report: string)
    ensures report != "" ==> report[|report| - 1] == '\n'
  {
    JoinLines(Values(DuplicateGroups(FileNames(paths))))
  }

  /** A group that survives to the report is one of GroupBy's groups, with more than one member. */
  lemma DuplicateGroupIsAGroup(names: seq<string>, g: Group)
    requires g in DuplicateGroups(names)
    ensures g in GroupBy(names) && g.count > 1
  {
    var sorted := OrderByCountDescending(GroupBy(names));
    OrderByCountDescendingPermutes(GroupBy(names));
    RepeatedMembers(sorted);
    assert g in multiset(sorted);
  }

  /** A reported name occurs more than once. */
  lemma ReportedNameIsRepeated(names: seq<string>, x: string)
    requires x in Values(DuplicateGroups(names))
    ensures multiset(names)[x] > 1
  {
    var gs := GroupBy(names);
    var d := DuplicateGroups(names);
    GroupByFacts(names);
    var i :| 0 <= i < |d| && Values(d)[i] == x;
    DuplicateGroupIsAGroup(names, d[i]);
    var k :| 0 <= k < |gs| && gs[k] == d[i];
  }

  /** A name that occurs more than once is reported. */
  lemma RepeatedNameIsReported(names: seq<string>, x: string)
    requires multiset(names)[x] > 1
    ensures x in Values(DuplicateGroups(names))
  {
    var gs := GroupBy(names);
    var sorted := OrderByCountDescending(gs);
    GroupByFacts(names);
    assert x in names;
    var k :| 0 <= k < |gs| && Values(gs)[k] == x;
    var g := gs[k];
    assert g.count > 1;
    OrderByCountDescendingPermutes(gs);
    assert g in multiset(sorted);
    RepeatedMembers(sorted);
    ValueOfMember(Repeated(sorted), g);
  }

  /** The name of a group in a list is among the list's names. */
  lemma ValueOfMember(gs: seq<Group>, g: Group)
    requires g in gs
    ensures g.value in Values(gs)
  {
    var i :| 0 <= i < |gs| && gs[i] == g;
    assert Values(gs)[i] == g.value;
  }

  lemma DuplicateNameIsRepeated(names: seq<string>, x: string)
    ensures x in Values(DuplicateGroups(names)) <==> multiset(names)[x] > 1
  {
    if x in Values(DuplicateGroups(names)) {
      ReportedNameIsRepeated(names, x);
    }
    if multiset(names)[x] > 1 {
      RepeatedNameIsReported(names, x);
    }
  }

  /**
   * The report lists exactly the names that occur more than once, each once,
   * with its number of occurrences, larger groups first and groups of equal
   * size in the order their names first occur.
   */
  lemma DuplicateGroupsAreTheRepeatedNames(names: seq<string>)
    ensures forall x :: x in Values(DuplicateGroups(names)) <==> multiset(names)[x] > 1
    ensures DistinctValues(DuplicateGroups(names))
    ensures CountsMatch(names, DuplicateGroups(names))
    ensures SortedByCountDescending(DuplicateGroups(names))
    ensures forall c :: c > 1 ==> WithCount(DuplicateGroups(names), c) == WithCount(GroupBy(names), c)
  {
    var gs := GroupBy(names);
    var sorted := OrderByCountDescending(gs);
    var d := DuplicateGroups(names);
    GroupByFacts(names);
    OrderByCountDescendingFacts(gs);
    RepeatedFacts(sorted);
    forall x ensures x in Values(d) <==> multiset(names)[x] > 1 {
      DuplicateNameIsRepeated(names, x);
    }
    forall i | 0 <= i < |d| ensures d[i].count == multiset(names)[d[i].value] {
      assert d[i] in d;
      DuplicateGroupIsAGroup(names, d[i]);
    }
  }

  /** A sequence has no repeated element exactly when every element occurs at most once. */
  lemma {:induction false} DistinctIffNoRepeats(s: seq<string>)
    ensures Distinct(s) <==> forall x :: multiset(s)[x] <= 1
  {
    if s != [] {
      var t, y := s[..|s| - 1], s[|s| - 1];
      assert s == t + [y];
      DistinctIffNoRepeats(t);
      if Distinct(s) {
        assert Distinct(t);
        assert y !in t;
      } else {
        var i, j :| 0 <= i < j < |s| && s[i] == s[j];
        if j < |s| - 1 {
          assert t[i] == t[j];
          assert !Distinct(t);
          var x :| multiset(t)[x] > 1;
          assert multiset(s)[x] >= multiset(t)[x];
        } else {
          assert t[i] == y;
          assert multiset(s)[y] == multiset(t)[y] + 1;
        }
      }
    }
  }

  lemma {:induction false} JoinLinesEmpty(lines: seq<string>)
    ensures JoinLines(lines) == "" <==> lines == []
  {
    if lines != [] {
      assert |JoinLines(lines)| >= 1;
    }
  }

  /** The report is empty exactly when the listed paths have pairwise different file names. */
  lemma ReportEmptyIffNamesDistinct(paths: seq<string>)
    ensures DuplicateReport(paths) == "" <==> Distinct(FileNames(paths))
  {
    var names := FileNames(paths);
    var d := DuplicateGroups(names);
    DuplicateGroupsAreTheRepeatedNames(names);
    JoinLinesEmpty(Values(d));
    DistinctIffNoRepeats(names);
    if d != [] {
      assert Values(d)[0] in Values(d);
    }
  }

  // ---------------------------------------------------------------------------
  // Reading the report back

  /** The position of the first line break of `s`, or its length when it has none. */
  function LineEnd(s: string): (k: nat)
    ensures k <= |s| && (k < |s| ==> s[k] == '\n')
    ensures forall i :: 0 <= i < k ==> s[i] != '\n'
  {
    if s == [] || s[0] == '\n' then 0 else 1 + LineEnd(s[1..])
  }

  /** Splits text at line breaks, each line ended by one. */
  function SplitLines(s: string): seq<string>
    decreases |s|
  {
    if s == [] then []
    else
      var k := LineEnd(s);
      if k == |s| then [s] else [s[..k]] + SplitLines(s[k + 1..])
  }

  /** Joining lines that hold no line break and splitting the text again gives the lines back. */
  lemma {:induction false} SplitJoinLines(lines: seq<string>)
    requires forall i :: 0 <= i < |lines| ==> '\n' !in lines[i]
    ensures SplitLines(JoinLines(lines)) == lines
  {
    if lines != [] {
      var l, rest := lines[0], JoinLines(lines[1..]);
      var s := JoinLines(lines);
      assert s == l + "\n" + rest;
      assert s[|l|] == '\n';
      var k := LineEnd(s);
      assert k == |l|;
      assert s[..k] == l && s[k + 1..] == rest;
      SplitJoinLines(lines[1..]);
    }
  }

  /**
   * When no file name holds a line break, the report can be split back into
   * the list of duplicated names.
   */
  lemma ReportListsDuplicateNames(paths: seq<string>)
    requires forall i :: 0 <= i < |paths| ==> '\n' !in GetFileName(paths[i])
    ensures SplitLines(DuplicateReport(paths)) == Values(DuplicateGroups(FileNames(paths)))
  {
    var names := FileNames(paths);
    var vs := Values(DuplicateGroups(names));
    DuplicateGroupsAreTheRepeatedNames(names);
    forall i | 0 <= i < |vs| ensures '\n' !in vs[i] {
      assert vs[i] in Values(DuplicateGroups(names));
      assert multiset(names)[vs[i]] > 1;
      var k :| 0 <= k < |names| && names[k] == vs[i];
    }
    SplitJoinLines(vs);
  }
}
